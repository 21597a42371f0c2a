/**
  * The raw string dictionary: its two decoders for run-length encoded codes, and the plain decoders they must match.
  * A chunk is one memory of cells, so that a store past the end of one region would show up in the next.
  */
module StringDictionary {
  import opened Words
  import opened RunLength
  import opened Texts
  import opened WideStore

  /** An offset slot, a string byte, or a string view. */
  datatype Cell = Slot(offset: int) | Byte(value: bv8) | View(length: int, start: int)

  type Text = seq<Cell>

  predicate ValidCodes(codes: seq<int>, dict: seq<Text>) {
    forall i :: 0 <= i < |codes| ==> 0 <= codes[i] < |dict|
  }

  /** The column's strings, row by row. */
  function RowTexts(dict: seq<Text>, codes: seq<int>): (rows: seq<Text>)
    requires ValidCodes(codes, dict)
    ensures |rows| == |codes| && forall i :: 0 <= i < |rows| ==> rows[i] == dict[codes[i]]
  {
    seq(|codes|, i requires 0 <= i < |codes| => dict[codes[i]])
  }

  // ---------------------------------------------------------------- decoded layout

  /** Cells in front of the strings: `n + 1` slots and the SIMD slack. */
  function SlotCells(n: nat): nat { n + 1 + SIMD_EXTRA_INTS }

  /** Byte offset of the first string. */
  function StringStart(n: nat): nat { 4 * (n + 1) + SIMD_EXTRA_BYTES }

  /** The first `k` slots hold the byte offsets of the strings they belong to. */
  ghost predicate SlotsTo(memory: seq<Cell>, rows: seq<Text>, k: nat)
    requires k <= |rows| + 1
  {
    SlotCells(|rows|) <= |memory| && forall i: nat :: i < k ==> memory[i] == Slot(StringStart(|rows|) + Offset(rows, i))
  }

  /** The first `k` strings follow each other behind the slots. */
  ghost predicate StringsTo(memory: seq<Cell>, rows: seq<Text>, k: nat)
    requires k <= |rows|
  {
    var base := SlotCells(|rows|);
    base + Offset(rows, k) <= |memory| && memory[base..base + Offset(rows, k)] == JoinedTo(rows, k)
  }

  /** Slot `i` holds the byte offset of string `i`, the last slot the end; the strings follow each other. */
  ghost predicate Decoded(memory: seq<Cell>, rows: seq<Text>) {
    SlotsTo(memory, rows, |rows| + 1) && StringsTo(memory, rows, |rows|)
  }

  /** `StringArrayViewer::operator()`: the cells between two neighbouring slots. */
  function ReadSlot(memory: seq<Cell>, n: nat, i: nat): Text
    requires SlotCells(n) <= |memory| && i < n && memory[i].Slot? && memory[i + 1].Slot?
    requires StringStart(n) <= memory[i].offset <= memory[i + 1].offset
    requires SlotCells(n) + (memory[i + 1].offset - StringStart(n)) <= |memory|
  {
    memory[SlotCells(n) + (memory[i].offset - StringStart(n))..SlotCells(n) + (memory[i + 1].offset - StringStart(n))]
  }

  lemma SlotAt(memory: seq<Cell>, rows: seq<Text>, i: nat)
    requires SlotsTo(memory, rows, |rows| + 1) && i <= |rows|
    ensures i < |memory| && memory[i] == Slot(StringStart(|rows|) + Offset(rows, i))
  {
  }

  /** Every row's slots delimit that row's string. */
  lemma ReadBack(memory: seq<Cell>, rows: seq<Text>, i: nat)
    requires Decoded(memory, rows) && i < |rows|
    ensures memory[i].Slot? && memory[i + 1].Slot?
    ensures StringStart(|rows|) <= memory[i].offset <= memory[i + 1].offset
    ensures SlotCells(|rows|) + (memory[i + 1].offset - StringStart(|rows|)) <= |memory|
    ensures ReadSlot(memory, |rows|, i) == rows[i]
  {
    var n, base := |rows|, SlotCells(|rows|);
    SlotAt(memory, rows, i);
    SlotAt(memory, rows, i + 1);
    OffsetMonotone(rows, i + 1, n);
    JoinedSlice(rows, i, n);
    SubSlice(memory, base, base + Offset(rows, n), base + Offset(rows, i), base + Offset(rows, i + 1));
  }

  // ---------------------------------------------------------------- plain decoder

  /** One row at a time: the slot, then the string. Returned is the decoded size without the SIMD slack. */
  method DecompressPlain(memory: array<Cell>, dict: seq<Text>, codes: seq<int>) returns (written: nat)
    requires ValidCodes(codes, dict)
    requires var rows := RowTexts(dict, codes); SlotCells(|rows|) + Offset(rows, |rows|) <= memory.Length
    modifies memory
    ensures Decoded(memory[..], RowTexts(dict, codes))
    ensures written == 4 * (|codes| + 1) + Offset(RowTexts(dict, codes), |codes|)
  {
    ghost var rows := RowTexts(dict, codes);
    var n := |codes|;
    var writeAt, row := 0, 0;
    hide SlotsTo, StringsTo;
    NothingYet(memory[..], rows);
    while row < n
      invariant 0 <= row <= n && writeAt == Offset(rows, row)
      invariant SlotsTo(memory[..], rows, row) && StringsTo(memory[..], rows, row)
    {
      PlainRow(memory, rows, dict[codes[row]], n, row, writeAt);
      writeAt := writeAt + |dict[codes[row]]|;
      row := row + 1;
    }
    ghost var was := memory[..];
    LastSlot(memory, rows, n, StringStart(n) + writeAt);
    StringsStay(was, memory[..], rows, n);
    written := StringStart(n) + writeAt - SIMD_EXTRA_BYTES;
  }

  method PlainRow(memory: array<Cell>, ghost rows: seq<Text>, text: Text, n: nat, row: nat, writeAt: nat)
    requires n == |rows| && row < n && rows[row] == text && writeAt == Offset(rows, row)
    requires SlotCells(n) + Offset(rows, n) <= memory.Length
    requires SlotsTo(memory[..], rows, row) && StringsTo(memory[..], rows, row)
    modifies memory
    ensures SlotsTo(memory[..], rows, row + 1) && StringsTo(memory[..], rows, row + 1)
  {
    OffsetMonotone(rows, row + 1, n);
    ghost var was := memory[..];
    memory[row] := Slot(StringStart(n) + writeAt);
    StringsStay(was, memory[..], rows, row);
    assert SlotsTo(memory[..], rows, row + 1);
    hide SlotsTo, StringsTo;
    ghost var mid := memory[..];
    CopyFrom(memory, SlotCells(n) + writeAt, text);
    SlotsStay(mid, memory[..], rows, SlotCells(n) + writeAt, |text|, row + 1);
    AppendText(mid, memory[..], rows, row, row + 1, SlotCells(n) + writeAt, text);
  }

  /** Changing slots leaves the strings alone. */
  lemma StringsStay(was: seq<Cell>, now: seq<Cell>, rows: seq<Text>, k: nat)
    requires k <= |rows| && StringsTo(was, rows, k) && |now| == |was|
    requires forall i :: SlotCells(|rows|) <= i < |was| ==> now[i] == was[i]
    ensures StringsTo(now, rows, k)
  {
  }

  /** Text appended behind the first `k` strings leaves those strings alone. */
  lemma AppendText(was: seq<Cell>, now: seq<Cell>, rows: seq<Text>, k: nat, m: nat, at: nat, piece: seq<Cell>)
    requires k <= m <= |rows| && StringsTo(was, rows, k) && at == SlotCells(|rows|) + Offset(rows, k)
    requires SameAround(now, was, at, |piece|) && now[at..at + |piece|] == piece
    requires JoinedTo(rows, m) == JoinedTo(rows, k) + piece
    ensures StringsTo(now, rows, m)
  {
    AppendSlice(was, now, SlotCells(|rows|), at, |piece|);
  }

  lemma AppendSlice<T>(was: seq<T>, now: seq<T>, base: nat, at: nat, size: nat)
    requires base <= at && SameAround(now, was, at, size)
    ensures now[base..at + size] == was[base..at] + now[at..at + size]
  {
    assert now[base..at] == now[..at][base..] && was[base..at] == was[..at][base..];
    assert now[base..at + size] == now[base..at] + now[at..at + size];
  }

  lemma SlotsStay(was: seq<Cell>, now: seq<Cell>, rows: seq<Text>, at: nat, size: nat, j: nat)
    requires j <= |rows| + 1 && SlotsTo(was, rows, j) && SameAround(now, was, at, size) && SlotCells(|rows|) <= at
    ensures SlotsTo(now, rows, j)
  {
    forall i: nat | i < j ensures now[i] == was[i] {
      assert now[i] == now[..at][i] && was[i] == was[..at][i];
    }
  }

  // ---------------------------------------------------------------- run-length decoder: offsets

  /** The eight lanes of an offset register: `_mm256_add_epi32` wraps. */
  function AddLanes(lanes: seq<int>, step: int): (sum: seq<int>)
    ensures |sum| == |lanes| && forall k :: 0 <= k < |sum| ==> sum[k] == U32(lanes[k] + step)
  {
    seq(|lanes|, k requires 0 <= k < |lanes| => U32(lanes[k] + step))
  }

  /** How far `writeOffsetsU32` reaches: whole registers of eight. */
  function OffsetReach(n: nat): nat { if n <= 8 then 8 else n + 7 }

  /** The `k`-th of evenly spaced 32-bit offsets. */
  function Spaced(start: nat, len: nat, k: nat): int { U32(start + k * len) }

  /** Adding eight lengths to a lane moves it eight places on, even when the addition wraps. */
  lemma SpacedStep(start: nat, len: nat, k: nat)
    ensures U32(Spaced(start, len, k) + U32(len * 8)) == Spaced(start, len, k + 8)
  {
    var a, b := start + k * len, len * 8;
    assert (k + 8) * len == k * len + len * 8;
    ModSum(a, b);
  }

  lemma ModSum(a: nat, b: nat)
    ensures (a % TWO_32 + b % TWO_32) % TWO_32 == (a + b) % TWO_32
  {
    var q := a / TWO_32 + b / TWO_32;
    assert a + b == a % TWO_32 + b % TWO_32 + q * TWO_32;
    WrapIgnoresMultiples(a % TWO_32 + b % TWO_32, q);
  }

  method StoreLanes(memory: array<Cell>, at: nat, lanes: seq<int>)
    requires |lanes| == 8 && at + 8 <= memory.Length
    modifies memory
    ensures forall i :: at <= i < at + 8 ==> memory[i] == Slot(lanes[i - at])
    ensures forall i :: 0 <= i < memory.Length && !(at <= i < at + 8) ==> memory[i] == old(memory[i])
  {
    forall i | at <= i < at + 8 {
      memory[i] := Slot(lanes[i - at]);
    }
  }

  /**
    * `Utils::writeOffsetsU32`: `n` evenly spaced offsets in steps of eight. At most seven slots past the requested ones
    * are touched (eight when none is requested).
    */
  method WriteOffsets(memory: array<Cell>, at: nat, start: nat, len: nat, n: nat)
    requires at + OffsetReach(n) <= memory.Length
    modifies memory
    ensures forall i: nat :: at <= i < at + n ==> memory[i] == Slot(Spaced(start, len, i - at))
    ensures forall i :: 0 <= i < memory.Length && !(at <= i < at + OffsetReach(n)) ==> memory[i] == old(memory[i])
  {
    var lanes := seq(8, k requires 0 <= k < 8 => Spaced(start, len, k));
    hide Spaced;
    StoreLanes(memory, at, lanes);
    var write := 8;
    while write < n
      invariant 8 <= write <= OffsetReach(n) && LanesAt(lanes, start, len, write - 8)
      invariant forall i: nat :: at <= i < at + write ==> memory[i] == Slot(Spaced(start, len, i - at))
      invariant forall i :: 0 <= i < memory.Length && !(at <= i < at + OffsetReach(n)) ==> memory[i] == old(memory[i])
    {
      LanesAdvance(lanes, start, len, write - 8);
      lanes := AddLanes(lanes, U32(len * 8));
      StoreLanes(memory, at + write, lanes);
      write := write + 8;
    }
  }

  /** The register holds the offsets from the `k`-th on. */
  ghost predicate LanesAt(lanes: seq<int>, start: nat, len: nat, k: nat) {
    |lanes| == 8 && forall j: nat :: j < 8 ==> lanes[j] == Spaced(start, len, k + j)
  }

  lemma LanesAdvance(lanes: seq<int>, start: nat, len: nat, k: nat)
    requires LanesAt(lanes, start, len, k)
    ensures LanesAt(AddLanes(lanes, U32(len * 8)), start, len, k + 8)
  {
    forall j: nat | j < 8 ensures U32(lanes[j] + U32(len * 8)) == Spaced(start, len, k + 8 + j) {
      SpacedStep(start, len, k + j);
    }
  }

  // ---------------------------------------------------------------- run-length decoder

  /** The decoded runs of the codes stream. */
  ghost predicate CodeRuns(values: seq<int>, counts: seq<int>, dict: seq<Text>) {
    |values| == |counts| && Positive(counts) && ValidCodes(values, dict)
  }

  lemma CodesOfRuns(values: seq<int>, counts: seq<int>, dict: seq<Text>)
    requires CodeRuns(values, counts, dict)
    ensures |Expand(values, counts)| == Total(counts) && ValidCodes(Expand(values, counts), dict)
  {
    ExpandLength(values, counts, |counts|);
    forall i | 0 <= i < Total(counts) ensures 0 <= Expand(values, counts)[i] < |dict| {
      var r := OwnerOf(counts, |counts|, i);
      ExpandAt(values, counts, |counts|, r, i);
    }
  }

  ghost function RunTexts(dict: seq<Text>, values: seq<int>, counts: seq<int>): (rows: seq<Text>)
    requires CodeRuns(values, counts, dict)
    ensures |rows| == Total(counts)
  {
    CodesOfRuns(values, counts, dict);
    RowTexts(dict, Expand(values, counts))
  }

  /** `count` rows from `at` on carry one string. */
  ghost predicate RunAt(rows: seq<Text>, at: nat, text: Text, count: nat) {
    at + count <= |rows| && forall i :: at <= i < at + count ==> rows[i] == text
  }

  lemma RowsOfRun(dict: seq<Text>, values: seq<int>, counts: seq<int>, r: nat)
    requires CodeRuns(values, counts, dict) && r < |counts|
    ensures 0 <= Start(counts, r) && Start(counts, r + 1) == Start(counts, r) + counts[r] <= Total(counts)
    ensures 1 <= counts[r] && 0 <= values[r] < |dict|
    ensures RunAt(RunTexts(dict, values, counts), Start(counts, r), dict[values[r]], counts[r])
  {
    StartMonotone(counts, 0, r);
    StartMonotone(counts, r + 1, |counts|);
    forall i | Start(counts, r) <= i < Start(counts, r + 1)
      ensures RunTexts(dict, values, counts)[i] == dict[values[r]]
    {
      ExpandAt(values, counts, |counts|, r, i);
    }
  }

  /** Inside a run offsets are evenly spaced and the bytes repeat. */
  lemma RunLayout(rows: seq<Text>, at: nat, text: Text, count: nat, k: nat)
    requires RunAt(rows, at, text, count) && k <= count
    ensures 0 <= |text| * k && Offset(rows, at + k) == Offset(rows, at) + |text| * k <= Offset(rows, |rows|)
    ensures JoinedTo(rows, at + k) == JoinedTo(rows, at) + Times(text, k)
  {
    EqualTexts(rows, at, text, k);
    OffsetMonotone(rows, at + k, |rows|);
  }

  /** Room for the rows, and offsets that fit 32 bits. */
  ghost predicate Fits(cells: nat, rows: seq<Text>) {
    SlotCells(|rows|) + Offset(rows, |rows|) <= cells && StringStart(|rows|) + Offset(rows, |rows|) < TWO_32
  }

  /**
    * The RLE-optimised path of `decompress`: all offsets first, run by run and spilling into the next run's slots, then
    * all strings, each run filled by doubling copies from an earlier run of the same code. Slots and strings end up
    * exactly as the plain decoder leaves them.
    */
  method DecompressRuns(memory: array<Cell>, dict: seq<Text>, values: seq<int>, counts: seq<int>)
    requires CodeRuns(values, counts, dict) && Fits(memory.Length, RunTexts(dict, values, counts))
    modifies memory
    ensures Decoded(memory[..], RunTexts(dict, values, counts))
  {
    hide CodeRuns, RunTexts, StringsTo, SlotsTo, Fits;
    WriteAllOffsets(memory, dict, values, counts);
    WriteAllStrings(memory, dict, values, counts);
  }

  method WriteAllOffsets(memory: array<Cell>, dict: seq<Text>, values: seq<int>, counts: seq<int>)
    requires CodeRuns(values, counts, dict) && Fits(memory.Length, RunTexts(dict, values, counts))
    modifies memory
    ensures var rows := RunTexts(dict, values, counts); SlotsTo(memory[..], rows, |rows| + 1)
  {
    ghost var rows := RunTexts(dict, values, counts);
    var n := TotalCount(counts);
    var offsetsAt, start, run := 0, StringStart(n), 0;
    NothingYet(memory[..], rows);
    assert |values| == |counts| && Start(counts, 0) == 0;
    hide *;
    while run < |counts|
      invariant 0 <= run <= |counts| && 0 <= offsetsAt == Start(counts, run) && 0 <= start
      invariant SlotsWritten(memory[..], rows, offsetsAt, start)
    {
      RowsOfRun(dict, values, counts, run);
      var len := |dict[values[run]]|;
      WriteRunOffsets(memory, rows, offsetsAt, dict[values[run]], len, counts[run], start);
      start := start + len * counts[run];
      offsetsAt := offsetsAt + counts[run];
      run := run + 1;
    }
    LastSlot(memory, rows, offsetsAt, start);
  }

  lemma NothingYet(memory: seq<Cell>, rows: seq<Text>)
    requires SlotCells(|rows|) <= |memory|
    ensures SlotsTo(memory, rows, 0) && StringsTo(memory, rows, 0)
  {
  }

  /** The first `k` slots are written and `start` is the offset that comes next. */
  ghost predicate SlotsWritten(memory: seq<Cell>, rows: seq<Text>, k: nat, start: nat) {
    k <= |rows| && start == StringStart(|rows|) + Offset(rows, k) && SlotsTo(memory, rows, k)
  }

  method LastSlot(memory: array<Cell>, ghost rows: seq<Text>, k: nat, start: nat)
    requires k == |rows| && SlotsWritten(memory[..], rows, k, start)
    modifies memory
    ensures SlotsTo(memory[..], rows, |rows| + 1)
    ensures forall i :: SlotCells(|rows|) <= i < memory.Length ==> memory[i] == old(memory[i])
  {
    memory[k] := Slot(start);
  }

  method TotalCount(counts: seq<int>) returns (n: nat)
    requires Positive(counts)
    ensures n == Total(counts)
  {
    n := 0;
    var r := 0;
    while r < |counts|
      invariant 0 <= r <= |counts| && n == Start(counts, r)
    {
      n := n + counts[r];
      r := r + 1;
    }
  }

  method WriteRunOffsets(memory: array<Cell>, ghost rows: seq<Text>, at: nat, ghost text: Text, len: nat, count: nat,
                         start: nat)
    requires RunAt(rows, at, text, count) && len == |text| && Fits(memory.Length, rows) && 1 <= count
    requires SlotsWritten(memory[..], rows, at, start)
    modifies memory
    ensures 0 <= len * count && SlotsWritten(memory[..], rows, at + count, start + len * count)
  {
    RunLayout(rows, at, text, count, count);
    forall k: nat | k < count ensures Spaced(start, len, k) == StringStart(|rows|) + Offset(rows, at + k) {
      RunSpacing(rows, at, text, count, k, start);
    }
    hide Spaced, Offset;
    WriteOffsets(memory, at, start, len, count);
  }

  /** Below 2^32 the wrapped offset of a row inside a run is the true one. */
  lemma RunSpacing(rows: seq<Text>, at: nat, text: Text, count: nat, k: nat, start: nat)
    requires RunAt(rows, at, text, count) && k < count && Fits(SlotCells(|rows|) + Offset(rows, |rows|), rows)
    requires start == StringStart(|rows|) + Offset(rows, at)
    ensures Spaced(start, |text|, k) == StringStart(|rows|) + Offset(rows, at + k)
  {
    RunLayout(rows, at, text, count, k);
    assert k * |text| == |text| * k;
  }

  // ---------------------------------------------------------------- run-length decoder: strings

  /** Where finished copies of each string are found, and how many: -1 stands for the null pointer. */
  ghost predicate CacheOk(done: seq<Cell>, at: seq<int>, runs: seq<int>, dict: seq<Text>) {
    |at| == |runs| == |dict| && forall c :: 0 <= c < |dict| ==> EntryOk(done, at[c], runs[c], dict[c])
  }

  ghost predicate EntryOk(done: seq<Cell>, at: int, runs: int, text: Text) {
    at == -1 || (0 <= at && 1 <= runs && Holds(done, at, text, runs))
  }

  /** The output only grows. */
  ghost predicate Extends(was: seq<Cell>, now: seq<Cell>) { |was| <= |now| && now[..|was|] == was }

  lemma EntryGrows(was: seq<Cell>, now: seq<Cell>, at: int, runs: int, text: Text)
    requires EntryOk(was, at, runs, text) && Extends(was, now)
    ensures EntryOk(now, at, runs, text)
  {
    if at != -1 {
      SubSlice(now, 0, |was|, at, at + |text| * runs);
      assert now[0..|was|] == was;
    }
  }

  /** The region written last becomes the entry of its code; all other entries stay good as the output grows. */
  lemma CacheGrows(was: seq<Cell>, now: seq<Cell>, at: seq<int>, runs: seq<int>, dict: seq<Text>, code: nat, to: int,
                   count: int)
    requires CacheOk(was, at, runs, dict) && Extends(was, now) && code < |dict| && EntryOk(now, to, count, dict[code])
    ensures CacheOk(now, at, runs, dict) && CacheOk(now, at[code := to], runs[code := count], dict)
  {
    hide EntryOk, Extends;
    forall c | 0 <= c < |dict| ensures EntryOk(now, at[c], runs[c], dict[c]) {
      EntryGrows(was, now, at[c], runs[c], dict[c]);
    }
  }

  /** A run written behind the output so far. */
  lemma OutputGrows(was: seq<Cell>, now: seq<Cell>, to: nat, text: Text, count: nat)
    requires 1 <= count && Holds(now, to, text, count) && SameAround(now, was, to, |text| * count)
    ensures Extends(was[..to], now[..to + |text| * count])
    ensures EntryOk(now[..to + |text| * count], to, count, text)
  {
    var done := now[..to + |text| * count];
    SubSlice(now, 0, |done|, to, |done|);
    assert now[0..|done|] == done;
  }

  method WriteAllStrings(memory: array<Cell>, dict: seq<Text>, values: seq<int>, counts: seq<int>)
    requires CodeRuns(values, counts, dict) && Fits(memory.Length, RunTexts(dict, values, counts))
    requires var rows := RunTexts(dict, values, counts); SlotsTo(memory[..], rows, |rows| + 1)
    modifies memory
    ensures Decoded(memory[..], RunTexts(dict, values, counts))
  {
    ghost var rows := RunTexts(dict, values, counts);
    var n := TotalCount(counts);
    var cachedAt := new int[|dict|](_ => -1);
    var cachedRuns := new int[|dict|](_ => 0);
    hide CodeRuns, Fits, SlotsTo, StringsTo, Offset;
    NothingWritten(memory[..], rows, SlotCells(n), cachedAt[..], cachedRuns[..], dict);
    FillRuns(memory, dict, values, counts, rows, SlotCells(n), cachedAt, cachedRuns);
  }

  method FillRuns(memory: array<Cell>, dict: seq<Text>, values: seq<int>, counts: seq<int>, ghost rows: seq<Text>,
                  start: nat, cachedAt: array<int>, cachedRuns: array<int>)
    requires CodeRuns(values, counts, dict) && rows == RunTexts(dict, values, counts) && Fits(memory.Length, rows)
    requires cachedAt != cachedRuns && cachedAt.Length == cachedRuns.Length == |dict|
    requires StringsWritten(memory[..], rows, 0, start, cachedAt[..], cachedRuns[..], dict)
    modifies memory, cachedAt, cachedRuns
    ensures Decoded(memory[..], rows)
  {
    ghost var rowAt: nat := 0;
    var to, run := start, 0;
    assert |values| == |counts| && Start(counts, 0) == 0;
    hide *;
    while run < |counts|
      invariant 0 <= run <= |counts| && rowAt == Start(counts, run)
      invariant StringsWritten(memory[..], rows, rowAt, to, cachedAt[..], cachedRuns[..], dict)
    {
      to := FillRun(memory, dict, values, counts, rows, run, rowAt, to, cachedAt, cachedRuns);
      rowAt := Start(counts, run + 1);
      run := run + 1;
    }
    AllWritten(memory[..], rows, rowAt, to, cachedAt[..], cachedRuns[..], dict, counts);
  }

  method FillRun(memory: array<Cell>, dict: seq<Text>, values: seq<int>, counts: seq<int>, ghost rows: seq<Text>,
                 run: nat, ghost rowAt: nat, to: nat, cachedAt: array<int>, cachedRuns: array<int>)
    returns (next: nat)
    requires CodeRuns(values, counts, dict) && rows == RunTexts(dict, values, counts) && Fits(memory.Length, rows)
    requires |values| == |counts| && run < |counts| && rowAt == Start(counts, run)
    requires cachedAt != cachedRuns && cachedAt.Length == cachedRuns.Length == |dict|
    requires StringsWritten(memory[..], rows, rowAt, to, cachedAt[..], cachedRuns[..], dict)
    modifies memory, cachedAt, cachedRuns
    ensures 0 <= Start(counts, run + 1)
    ensures StringsWritten(memory[..], rows, Start(counts, run + 1), next, cachedAt[..], cachedRuns[..], dict)
  {
    hide StringsWritten, Fits, RunAt, RunTexts, CodeRuns;
    RowsOfRun(dict, values, counts, run);
    next := WriteRunStrings(memory, dict, rows, values[run], counts[run], rowAt, to, cachedAt, cachedRuns);
  }

  lemma NothingWritten(memory: seq<Cell>, rows: seq<Text>, to: nat, at: seq<int>, runs: seq<int>, dict: seq<Text>)
    requires SlotsTo(memory, rows, |rows| + 1) && to == SlotCells(|rows|) && |at| == |runs| == |dict|
    requires forall c :: 0 <= c < |at| ==> at[c] == -1
    ensures StringsWritten(memory, rows, 0, to, at, runs, dict)
  {
  }

  lemma AllWritten(memory: seq<Cell>, rows: seq<Text>, k: nat, to: nat, at: seq<int>, runs: seq<int>, dict: seq<Text>,
                   counts: seq<int>)
    requires StringsWritten(memory, rows, k, to, at, runs, dict) && k == Total(counts) == |rows|
    ensures Decoded(memory, rows)
  {
  }

  /** All slots and the strings of the first `k` rows are in place, `to` is behind them, and the cache is good. */
  ghost predicate StringsWritten(memory: seq<Cell>, rows: seq<Text>, k: nat, to: nat, at: seq<int>, runs: seq<int>,
                                 dict: seq<Text>)
  {
    && k <= |rows| && to == SlotCells(|rows|) + Offset(rows, k) && to <= |memory|
    && SlotsTo(memory, rows, |rows| + 1) && StringsTo(memory, rows, k)
    && CacheOk(memory[..to], at, runs, dict)
  }

  /** One run: the source is the longest cached copy of its string, and the cache entry is updated before copying. */
  method WriteRunStrings(memory: array<Cell>, dict: seq<Text>, ghost rows: seq<Text>, code: nat, count: nat,
                         ghost rowAt: nat, to: nat, cachedAt: array<int>, cachedRuns: array<int>)
    returns (next: nat)
    requires 1 <= count && code < |dict| && RunAt(rows, rowAt, dict[code], count) && Fits(memory.Length, rows)
    requires cachedAt != cachedRuns && cachedAt.Length == cachedRuns.Length == |dict|
    requires StringsWritten(memory[..], rows, rowAt, to, cachedAt[..], cachedRuns[..], dict)
    modifies memory, cachedAt, cachedRuns
    ensures StringsWritten(memory[..], rows, rowAt + count, next, cachedAt[..], cachedRuns[..], dict)
  {
    var text := dict[code];
    RunLayout(rows, rowAt, text, count, count);
    CacheEntry(memory[..to], cachedAt[..], cachedRuns[..], dict, code);
    hide RunAt, SlotsTo, StringsTo, CacheOk, Ready, Holds, Offset, Times, EntryOk;
    ghost var was, at, runs := memory[..], cachedAt[..], cachedRuns[..];
    var source := PickSource(text, code, count, to, cachedAt, cachedRuns);
    MultiplyString(memory, to, source, text, |text|, count);
    next := to + |text| * count;
    RunWritten(was, memory[..], rows, rowAt, code, count, to, at, runs, dict);
  }

  lemma RunWritten(was: seq<Cell>, now: seq<Cell>, rows: seq<Text>, rowAt: nat, code: nat, count: nat, to: nat,
                   at: seq<int>, runs: seq<int>, dict: seq<Text>)
    requires 1 <= count && code < |dict| && RunAt(rows, rowAt, dict[code], count)
    requires StringsWritten(was, rows, rowAt, to, at, runs, dict) && |at| == |runs| == |dict|
    requires Holds(now, to, dict[code], count) && SameAround(now, was, to, |dict[code]| * count)
    ensures 0 <= |dict[code]| * count
    ensures StringsWritten(now, rows, rowAt + count, to + |dict[code]| * count, at, runs, dict)
    ensures StringsWritten(now, rows, rowAt + count, to + |dict[code]| * count,
                           at[code := to], runs[code := count], dict)
  {
    hide RunAt, SlotsTo, StringsTo, CacheOk, Holds, Times, SameAround;
    RunLayout(rows, rowAt, dict[code], count, count);
    TextWritten(was, now, rows, rowAt, dict[code], count, to);
    CacheWritten(was, now, to, at, runs, dict, code, count);
  }

  lemma TextWritten(was: seq<Cell>, now: seq<Cell>, rows: seq<Text>, rowAt: nat, text: Text, count: nat, to: nat)
    requires RunAt(rows, rowAt, text, count) && to == SlotCells(|rows|) + Offset(rows, rowAt)
    requires SlotsTo(was, rows, |rows| + 1) && StringsTo(was, rows, rowAt)
    requires Holds(now, to, text, count) && SameAround(now, was, to, |text| * count)
    ensures SlotsTo(now, rows, |rows| + 1) && StringsTo(now, rows, rowAt + count)
    ensures rowAt + count <= |rows| && to + |text| * count <= |now|
  {
    RunLayout(rows, rowAt, text, count, count);
    HeldText(now, to, text, count);
    hide RunAt, SlotsTo, StringsTo, Holds, Times, Offset, JoinedTo, SameAround;
    SlotsStay(was, now, rows, to, |text| * count, |rows| + 1);
    AppendText(was, now, rows, rowAt, rowAt + count, to, Times(text, count));
  }

  lemma CacheWritten(was: seq<Cell>, now: seq<Cell>, to: nat, at: seq<int>, runs: seq<int>, dict: seq<Text>, code: nat,
                     count: nat)
    requires to <= |was| && CacheOk(was[..to], at, runs, dict) && code < |dict| && 1 <= count
    requires Holds(now, to, dict[code], count) && SameAround(now, was, to, |dict[code]| * count)
    ensures to + |dict[code]| * count <= |now| && |at| == |runs| == |dict|
    ensures CacheOk(now[..to + |dict[code]| * count], at, runs, dict)
    ensures CacheOk(now[..to + |dict[code]| * count], at[code := to], runs[code := count], dict)
  {
    HeldText(now, to, dict[code], count);
    OutputGrows(was, now, to, dict[code], count);
    hide EntryOk, Extends, Holds, Times, SameAround;
    CacheGrows(was[..to], now[..to + |dict[code]| * count], at, runs, dict, code, to, count);
  }

  lemma CacheEntry(done: seq<Cell>, at: seq<int>, runs: seq<int>, dict: seq<Text>, code: nat)
    requires CacheOk(done, at, runs, dict) && code < |dict|
    ensures at[code] == -1 || (0 <= at[code] && 1 <= runs[code])
    ensures Ready(done, if at[code] == -1 then Outside(dict[code]) else Inside(at[code], runs[code]), dict[code])
  {
    assert EntryOk(done, at[code], runs[code], dict[code]);
  }

  lemma HeldText(buffer: seq<Cell>, at: nat, text: Text, n: nat)
    requires Holds(buffer, at, text, n)
    ensures 0 <= |text| * n == |Times(text, n)| && at + |text| * n <= |buffer|
    ensures buffer[at..at + |text| * n] == Times(text, n)
  {
    TimesLength(text, n);
  }

  method PickSource(text: Text, code: nat, count: nat, to: nat, cachedAt: array<int>, cachedRuns: array<int>)
    returns (source: Source<Cell>)
    requires cachedAt != cachedRuns && code < cachedAt.Length == cachedRuns.Length
    requires cachedAt[code] == -1 || (0 <= cachedAt[code] && 1 <= cachedRuns[code])
    modifies cachedAt, cachedRuns
    ensures source ==
      if old(cachedAt[code]) == -1 then Outside(text) else Inside(old(cachedAt[code]), old(cachedRuns[code]))
    ensures var replace := old(cachedAt[code]) == -1 || old(cachedRuns[code]) < count;
      && cachedAt[..] == (if replace then old(cachedAt[..])[code := to] else old(cachedAt[..]))
      && cachedRuns[..] == (if replace then old(cachedRuns[..])[code := count] else old(cachedRuns[..]))
  {
    if cachedAt[code] == -1 {
      source := Outside(text);
      cachedAt[code], cachedRuns[code] := to, count;
    } else {
      source := Inside(cachedAt[code], cachedRuns[code]);
      if cachedRuns[code] < count {
        cachedAt[code], cachedRuns[code] := to, count;
      }
    }
  }
}
