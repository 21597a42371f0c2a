/** The raw string dictionary end to end: statistics, dictionary, codes through the picker, and both decoders. */
module StringColumn {
  import opened Words
  import opened RunLength
  import opened Texts
  import opened WideStore
  import opened StringDictionary
  import opened StringViews
  import opened Cascade
  import opened NumberStats
  import opened IntegerSchemes
  import opened WrittenColumns
  import opened ScratchStacks
  import opened CascadeReader
  import opened SchemePicker

  // ---------------------------------------------------------------- order and statistics

  /** The order of `std::set<str>`; everything below holds for any strict total order. */
  type Order = (Text, Text) -> bool

  ghost predicate StrictOrder(less: Order) {
    && (forall a :: !less(a, a))
    && (forall a, b, c :: less(a, b) && less(b, c) ==> less(a, c))
    && (forall a, b :: a == b || less(a, b) || less(b, a))
  }

  ghost predicate Sorted(dict: seq<Text>, less: Order) { forall i, j :: 0 <= i < j < |dict| ==> less(dict[i], dict[j]) }

  /** What a row adds to the distinct values: its string, or the empty string for a null row. */
  function Entry(src: seq<Text>, nulls: NullMap, row: nat): Text
    requires row < |src| && Covers(nulls, |src|)
  {
    if Live(nulls, row) then src[row] else []
  }

  function Entries(src: seq<Text>, nulls: NullMap, n: nat): set<Text>
    requires n <= |src| && Covers(nulls, |src|)
  {
    set i: nat | i < n :: Entry(src, nulls, i)
  }

  /** `StringStats::generateStats`, distinct values. */
  method DistinctTexts(src: seq<Text>, nulls: NullMap) returns (distinct: set<Text>)
    requires Covers(nulls, |src|)
    ensures distinct == Entries(src, nulls, |src|)
  {
    distinct := {};
    var row := 0;
    while row < |src|
      invariant 0 <= row <= |src| && distinct == Entries(src, nulls, row)
    {
      assert Entries(src, nulls, row + 1) == Entries(src, nulls, row) + {Entry(src, nulls, row)};
      if Live(nulls, row) {
        distinct := distinct + {src[row]};
      } else {
        distinct := distinct + {[]};
      }
      row := row + 1;
    }
  }

  lemma {:induction false} FirstText(texts: set<Text>, less: Order) returns (first: Text)
    requires StrictOrder(less) && texts != {}
    ensures first in texts && forall t :: t in texts ==> t == first || less(first, t)
  {
    SomeText(texts);
    first :| first in texts;
    var others := texts - {first};
    assert forall t :: t in texts ==> t == first || t in others;
    if others != {} {
      var rest := FirstText(others, less);
      if less(rest, first) {
        first := rest;
      }
    }
  }

  lemma SomeText(texts: set<Text>)
    ensures texts != {} ==> exists t :: t in texts
  {
    assert (forall t :: t !in texts) ==> texts == {};
  }

  /** The dictionary in order. */
  method SortTexts(texts: set<Text>, less: Order) returns (dict: seq<Text>)
    requires StrictOrder(less)
    ensures Sorted(dict, less) && |dict| == |texts| && forall t :: t in dict <==> t in texts
  {
    dict := [];
    var left := texts;
    while left != {}
      invariant left <= texts && Sorted(dict, less) && |dict| + |left| == |texts|
      invariant forall t :: t in dict <==> t in texts && t !in left
      invariant forall i, t :: 0 <= i < |dict| && t in left ==> less(dict[i], t)
      decreases |left|
    {
      ghost var first := FirstText(left, less);
      var t :| t in left && forall u :: u in left ==> u == t || less(t, u);
      dict, left := dict + [t], left - {t};
    }
  }

  // ---------------------------------------------------------------- codes

  ghost predicate LowerBoundAt(dict: seq<Text>, less: Order, v: Text, k: int) {
    0 <= k <= |dict| && (forall i :: 0 <= i < k ==> less(dict[i], v)) && (forall i :: k <= i < |dict| ==>
      !less(dict[i], v))
  }

  method FindCode(dict: seq<Text>, less: Order, v: Text) returns (lo: nat)
    requires StrictOrder(less) && Sorted(dict, less)
    ensures LowerBoundAt(dict, less, v, lo)
  {
    lo := 0;
    var hi := |dict|;
    while lo < hi
      invariant 0 <= lo <= hi <= |dict|
      invariant (forall i :: 0 <= i < lo ==> less(dict[i], v)) && (forall i :: hi <= i < |dict| ==> !less(dict[i], v))
    {
      var mid := lo + (hi - lo) / 2;
      if less(dict[mid], v) {
        lo := mid + 1;
      } else {
        hi := mid;
      }
    }
  }

  /** A string of the dictionary is found. */
  lemma CodeFinds(dict: seq<Text>, less: Order, v: Text, k: nat)
    requires StrictOrder(less) && Sorted(dict, less) && LowerBoundAt(dict, less, v, k) && v in dict
    ensures k < |dict| && dict[k] == v
  {
    var j :| 0 <= j < |dict| && dict[j] == v;
    assert k <= j;
    InOrder(dict, less, k, j);
  }

  lemma InOrder(dict: seq<Text>, less: Order, i: nat, j: nat)
    requires Sorted(dict, less) && i < |dict| && j < |dict|
    ensures i < j ==> less(dict[i], dict[j])
  {
  }

  /** Runs of equal neighbours. */
  function RunTotal<T(==)>(rows: seq<T>): nat { if |rows| == 0 then 0 else RunTotalTo(rows, |rows|) }

  function RunTotalTo<T(==)>(rows: seq<T>, n: nat): nat
    requires 1 <= n <= |rows|
  {
    if n == 1 then 1 else RunTotalTo(rows, n - 1) + if rows[n - 1] != rows[n - 2] then 1 else 0
  }

  /** The run counter agrees with the runs the RLE encoder makes. */
  lemma {:induction false} RunTotalIsRuns(codes: seq<int>, n: nat)
    requires 1 <= n <= |codes|
    ensures var runs := RunsTo(codes, None, n);
      RunTotalTo(codes, n) == |runs.counts| && runs.values[|runs.values| - 1] == codes[n - 1]
  {
    if n > 1 {
      RunTotalIsRuns(codes, n - 1);
    }
  }

  /** Codes of an ascending dictionary have the runs of the strings they stand for. */
  lemma {:induction false} RunsOfRows(dict: seq<Text>, less: Order, codes: seq<int>, n: nat)
    requires StrictOrder(less) && Sorted(dict, less) && ValidCodes(codes, dict) && 1 <= n <= |codes|
    ensures RunTotalTo(RowTexts(dict, codes), n) == RunTotalTo(codes, n)
  {
    if n > 1 {
      RunsOfRows(dict, less, codes, n - 1);
      EntriesDiffer(dict, less, codes[n - 1], codes[n - 2]);
    }
  }

  lemma EntriesDiffer(dict: seq<Text>, less: Order, i: nat, j: nat)
    requires StrictOrder(less) && Sorted(dict, less) && i < |dict| && j < |dict|
    ensures dict[i] == dict[j] <==> i == j
  {
    InOrder(dict, less, i, j);
    InOrder(dict, less, j, i);
  }

  ghost predicate CodesFor(codes: seq<int>, src: seq<Text>, dict: seq<Text>, less: Order) {
    |codes| == |src| && forall i :: 0 <= i < |codes| ==> LowerBoundAt(dict, less, src[i], codes[i])
  }

  /** Codes and run counter in one pass; -1 starts the counter. */
  method EncodeCodes(src: seq<Text>, dict: seq<Text>, less: Order) returns (codes: seq<int>, runs: nat)
    requires StrictOrder(less) && Sorted(dict, less)
    ensures CodesFor(codes, src, dict, less) && runs == RunTotal(codes)
  {
    codes, runs := [], 0;
    var current := -1;
    while |codes| < |src|
      invariant |codes| <= |src| && CodesFor(codes, src[..|codes|], dict, less)
      invariant runs == RunTotal(codes) && current == if |codes| == 0 then -1 else codes[|codes| - 1]
    {
      var code: int := FindCode(dict, less, src[|codes|]);
      RunTotalGrows(codes, code);
      codes := codes + [code];
      if code != current {
        runs, current := runs + 1, code;
      }
    }
    assert src[..|codes|] == src;
  }

  lemma RunTotalGrows(codes: seq<int>, code: int)
    ensures RunTotal(codes + [code]) == RunTotal(codes) + if |codes| > 0 && codes[|codes| - 1] == code then 0 else 1
  {
    if |codes| > 0 {
      RunTotalOfPrefix(codes, [code], |codes|);
    }
  }

  lemma {:induction false} RunTotalOfPrefix(codes: seq<int>, more: seq<int>, n: nat)
    requires 1 <= n <= |codes|
    ensures RunTotalTo(codes + more, n) == RunTotalTo(codes, n)
  {
    if n > 1 {
      RunTotalOfPrefix(codes, more, n - 1);
    }
  }

  // ---------------------------------------------------------------- which codes are valid

  /** Every live row's code is its dictionary string. */
  lemma LiveRowsCoded(src: seq<Text>, nulls: NullMap, dict: seq<Text>, codes: seq<int>, less: Order, row: nat)
    requires Covers(nulls, |src|) && StrictOrder(less) && Sorted(dict, less) && CodesFor(codes, src, dict, less)
    requires forall t :: t in dict <==> t in Entries(src, nulls, |src|)
    requires row < |src| && (Live(nulls, row) || src[row] == [])
    ensures 0 <= codes[row] < |dict| && dict[codes[row]] == src[row]
  {
    assert Entry(src, nulls, row) in Entries(src, nulls, |src|);
    CodeFinds(dict, less, src[row], codes[row]);
  }

  /** A string greater than the whole dictionary. */
  ghost predicate Beyond(v: Text, dict: seq<Text>, less: Order) { forall i :: 0 <= i < |dict| ==> less(dict[i], v) }

  lemma BeyondCode(dict: seq<Text>, less: Order, v: Text, k: int)
    requires LowerBoundAt(dict, less, v, k)
    ensures k == |dict| <==> Beyond(v, dict, less)
  {
    assert k < |dict| ==> !less(dict[k], v);
  }

  /**
    * Null rows are coded by whatever bytes they hold. All codes lead into the dictionary exactly when no null row holds
    * a string beyond it; otherwise such a row's code is one past the last entry.
    */
  lemma CodesValidIff(src: seq<Text>, nulls: NullMap, dict: seq<Text>, codes: seq<int>, less: Order)
    requires Covers(nulls, |src|) && StrictOrder(less) && Sorted(dict, less) && CodesFor(codes, src, dict, less)
    requires forall t :: t in dict <==> t in Entries(src, nulls, |src|)
    ensures ValidCodes(codes, dict) <==> forall i :: 0 <= i < |src| && !Live(nulls, i) ==> !Beyond(src[i], dict, less)
  {
    forall i | 0 <= i < |src| ensures codes[i] < |dict| <==> !Beyond(src[i], dict, less) {
      BeyondCode(dict, less, src[i], codes[i]);
    }
    forall i | 0 <= i < |src| && Live(nulls, i) ensures codes[i] < |dict| {
      LiveRowsCoded(src, nulls, dict, codes, less, i);
    }
  }

  /** Some string of the column is not smaller than the bytes of any null row: a condition on the column alone. */
  ghost predicate NoNullBeyond(src: seq<Text>, nulls: NullMap, less: Order)
    requires Covers(nulls, |src|)
  {
    forall i :: 0 <= i < |src| && !Live(nulls, i) ==> exists t :: t in Entries(src, nulls, |src|) && !less(t, src[i])
  }

  lemma CodesValidFor(src: seq<Text>, nulls: NullMap, dict: seq<Text>, codes: seq<int>, less: Order)
    requires Covers(nulls, |src|) && StrictOrder(less) && Sorted(dict, less) && CodesFor(codes, src, dict, less)
    requires forall t :: t in dict <==> t in Entries(src, nulls, |src|)
    ensures ValidCodes(codes, dict) <==> NoNullBeyond(src, nulls, less)
  {
    CodesValidIff(src, nulls, dict, codes, less);
    forall i | 0 <= i < |src|
      ensures Beyond(src[i], dict, less) <==> forall t :: t in Entries(src, nulls, |src|) ==> less(t, src[i])
    {
      forall t | t in Entries(src, nulls, |src|) && Beyond(src[i], dict, less) ensures less(t, src[i]) {
        assert t in dict;
      }
      assert forall k :: 0 <= k < |dict| ==> dict[k] in dict;
    }
  }

  /** The least string that is not smaller than `v`. */
  ghost predicate DecodesTo(row: Text, v: Text, entries: set<Text>, less: Order) {
    row in entries && !less(row, v) && forall t :: t in entries && !less(t, v) ==> t == row || less(row, t)
  }

  /** What the column decodes to, told from the column alone. */
  ghost predicate RestoredRows(rows: seq<Text>, src: seq<Text>, nulls: NullMap, less: Order)
    requires Covers(nulls, |src|)
  {
    |rows| == |src| && forall i :: 0 <= i < |src| ==> DecodesTo(rows[i], src[i], Entries(src, nulls, |src|), less)
  }

  lemma RestoredUnique(rows: seq<Text>, other: seq<Text>, src: seq<Text>, nulls: NullMap, less: Order)
    requires Covers(nulls, |src|) && StrictOrder(less)
    requires RestoredRows(rows, src, nulls, less) && RestoredRows(other, src, nulls, less)
    ensures rows == other
  {
    hide StrictOrder, DecodesTo, Entries;
    forall i | 0 <= i < |src| ensures rows[i] == other[i] {
      LeastUnique(rows[i], other[i], src[i], Entries(src, nulls, |src|), less);
    }
  }

  lemma LeastUnique(row: Text, other: Text, v: Text, entries: set<Text>, less: Order)
    requires StrictOrder(less) && DecodesTo(row, v, entries, less) && DecodesTo(other, v, entries, less)
    ensures row == other
  {
    assert less(row, other) && less(other, row) ==> less(row, row);
  }

  /** The codes' strings are those; live rows keep theirs. */
  lemma RowsRestored(src: seq<Text>, nulls: NullMap, dict: seq<Text>, codes: seq<int>, less: Order)
    requires Covers(nulls, |src|) && StrictOrder(less) && Sorted(dict, less) && CodesFor(codes, src, dict, less)
    requires (forall t :: t in dict <==> t in Entries(src, nulls, |src|)) && ValidCodes(codes, dict)
    ensures RestoredRows(RowTexts(dict, codes), src, nulls, less) && AgreeOnLive(RowTexts(dict, codes), src, nulls)
  {
    forall i | 0 <= i < |src| ensures DecodesTo(dict[codes[i]], src[i], Entries(src, nulls, |src|), less) {
      LeastNotSmaller(dict, less, src[i], codes[i]);
    }
    forall i | 0 <= i < |src| && Live(nulls, i) ensures RowTexts(dict, codes)[i] == src[i] {
      LiveRowsCoded(src, nulls, dict, codes, less, i);
    }
  }

  lemma LeastNotSmaller(dict: seq<Text>, less: Order, v: Text, k: nat)
    requires StrictOrder(less) && Sorted(dict, less) && LowerBoundAt(dict, less, v, k) && k < |dict|
    ensures !less(dict[k], v) && forall t :: t in dict && !less(t, v) ==> t == dict[k] || less(dict[k], t)
  {
    forall t | t in dict && !less(t, v) ensures t == dict[k] || less(dict[k], t) {
      var j :| 0 <= j < |dict| && dict[j] == t;
      assert k <= j;
    }
  }

  // ---------------------------------------------------------------- bytes of null rows

  /** Bytes that the null rows below `n` hold. */
  function NullBytes(rows: seq<Text>, nulls: NullMap, n: nat): nat
    requires n <= |rows| && Covers(nulls, |rows|)
  {
    if n == 0 then 0 else NullBytes(rows, nulls, n - 1) + if Live(nulls, n - 1) then 0 else |rows[n - 1]|
  }

  lemma {:induction false} LiveBytesAgree(rows: seq<Text>, src: seq<Text>, nulls: NullMap, n: nat)
    requires Covers(nulls, |src|) && AgreeOnLive(rows, src, nulls) && n <= |src|
    ensures Offset(rows, n) - NullBytes(rows, nulls, n) == Offset(src, n) - NullBytes(src, nulls, n)
  {
    if n > 0 {
      LiveBytesAgree(rows, src, nulls, n - 1);
    }
  }

  /** With empty strings in null rows, which is what the statistics count them as, every row is restored. */
  lemma AllRowsCoded(src: seq<Text>, nulls: NullMap, dict: seq<Text>, codes: seq<int>, less: Order)
    requires Covers(nulls, |src|) && StrictOrder(less) && Sorted(dict, less) && CodesFor(codes, src, dict, less)
    requires forall t :: t in dict <==> t in Entries(src, nulls, |src|)
    requires NullsHoldNothing(src, nulls)
    ensures ValidCodes(codes, dict) && RowTexts(dict, codes) == src
  {
    forall i | 0 <= i < |src| ensures 0 <= codes[i] < |dict| && dict[codes[i]] == src[i] {
      LiveRowsCoded(src, nulls, dict, codes, less, i);
    }
  }

  // ---------------------------------------------------------------- encoder

  /** What `compress` writes without FSST; `totalSize` is the size of the column as it was handed in. */
  datatype StringColumn = StringColumn(slots: seq<int>, pool: seq<Cell>, codes: Column, useRle: bool, totalSize: nat)
  {
    /** The decoder casts the recorded codes scheme to RLE when the flag is set. */
    predicate Castable() { useRle ==> codes.scheme == RLE }
  }

  /** Slots and strings of the whole column. */
  function ColumnSize(src: seq<Text>): nat { 4 * (|src| + 1) + Offset(src, |src|) }

  lemma {:induction false} EntriesBound(src: seq<Text>, nulls: NullMap, n: nat)
    requires n <= |src| && Covers(nulls, |src|)
    ensures |Entries(src, nulls, n)| <= n
  {
    if n == 0 {
      assert Entries(src, nulls, 0) == {};
    } else {
      EntriesBound(src, nulls, n - 1);
      assert Entries(src, nulls, n) == Entries(src, nulls, n - 1) + {Entry(src, nulls, n - 1)};
    }
  }

  lemma CodesAreSmall(src: seq<Text>, nulls: NullMap, dict: seq<Text>, codes: seq<int>, less: Order)
    requires Covers(nulls, |src|) && |src| < MAX_ROWS && CodesFor(codes, src, dict, less)
    requires |dict| == |Entries(src, nulls, |src|)|
    ensures AllS32(codes)
  {
    EntriesBound(src, nulls, |src|);
    forall i | 0 <= i < |codes| ensures IsS32(codes[i]) {
      assert LowerBoundAt(dict, less, src[i], codes[i]);
    }
  }

  /**
    * `DynamicDictionary::compress`, raw strings. The codes stream is lossless whatever the picker chose, but the flag
    * for the run-length decoder only records what was asked for. At depth 0 the request is dropped. Sampling with a
    * level to spend keeps it while estimating, and on the hot path unless the run-length stream comes out larger than
    * the raw codes; that can only happen for one or two rows more than three to a run, and with a single level it does.
    */
  method CompressStrings(picker: Picker, src: seq<Text>, nulls: NullMap, less: Order, depth: nat,
                         forced: Option<SchemeCode>)
    returns (c: StringColumn, ghost dict: seq<Text>, ghost codes: seq<int>)
    requires picker.Configured() && RLE in picker.schemes && (forced.Some? ==> forced.value in picker.schemes)
    requires picker.Unforced() && forced != Some(ONE_VALUE) && 1 <= picker.compressionLevel
    requires Covers(nulls, |src|) && 1 <= |src| < MAX_ROWS && StrictOrder(less)
    modifies picker
    ensures picker.Restored() && Stored(c.slots, c.pool, dict) && c.totalSize == ColumnSize(src)
    ensures Sorted(dict, less) && CodesFor(codes, src, dict, less)
    ensures forall t :: t in dict <==> t in Entries(src, nulls, |src|)
    ensures Lossless(c.codes, codes, None) && NoEmptyRun(c.codes, |src|)
    ensures c.useRle <==> 3 * RunTotal(codes) < |src|
    ensures depth == 0 ==> c.codes.scheme == UNCOMPRESSED
    ensures var force := if c.useRle then Some(RLE) else forced;
      Noted(picker.history, |old(picker.history)|, Asked(codes, None, depth, force))
    ensures picker.selection == SAMPLE && 1 <= depth ==>
      CastDecided(c, codes, depth, picker.estimationLevel == 0, picker.history, |old(picker.history)|)
    ensures old(picker.Cautious()) && picker.estimationLevel == 0 && c.codes.scheme == RLE ==>
      10 + 3 * LeastBytes(RunTotal(codes)) <= 4 * |src|
  {
    var distinct := DistinctTexts(src, nulls);
    var order := SortTexts(distinct, less);
    dict := order;
    var slots, pool := StoreDictionary(order);
    var codeSeq, runs := EncodeCodes(src, order, less);
    codes := codeSeq;
    CodesAreSmall(src, nulls, dict, codes, less);
    CodesStayUnbiased(picker, src, nulls, dict, codes, less, depth);
    hide CodesFor, Sorted, StrictOrder, Stored, Lossless, NoEmptyRun, Entries, Written, Picker.Honoured,
      Picker.Decided, Noted;
    RunTotalIsRuns(codes, |codes|);
    var useRle := 3 * runs < |src|;
    var body, used, scheme := picker.Compress(codeSeq, None, depth, if useRle then Some(RLE) else forced);
    c := StringColumn(slots, pool, Column(scheme, body), useRle, ColumnSize(src));
    NoEmptyRuns(c.codes, codes, None);
    if useRle && picker.selection == SAMPLE && 1 <= depth {
      RequestDecides(picker, c, codes, depth, |old(picker.history)|);
    }
  }

  /** When the recorded scheme is the one the flag promises, for a column compressed with a level to spend. */
  ghost predicate CastDecided(c: StringColumn, codes: seq<int>, depth: nat, hot: bool, events: seq<Event>, from: nat) {
    var n, runs := |codes|, RunTotal(codes);
    && (!hot ==> c.Castable())
    && (n <= 3 * runs || 3 * runs + 3 <= n ==> c.Castable())
    && (hot && depth == 1 && c.Castable() ==> n <= 3 * runs || 3 * runs + 3 <= n)
    && (hot && c.useRle ==> exists size: nat :: Noted(events, from, Compressed(RLE, codes, None, depth, size))
                                                && (c.Castable() <==> size <= 4 * n))
  }

  lemma RequestDecides(picker: Picker, c: StringColumn, codes: seq<int>, depth: nat, from: nat)
    requires 1 <= |codes| && c.useRle && 3 * RunTotal(codes) < |codes|
    requires picker.Honoured(RLE, c.codes.scheme, codes, None, depth, picker.estimationLevel == 0, picker.history, from)
    ensures CastDecided(c, codes, depth, picker.estimationLevel == 0, picker.history, from)
  {
    RunTotalIsRuns(codes, |codes|);
    hide RunsTo, RunTotalTo, Noted;
    assert EncoderRuns(codes, None) == RunTotal(codes);
  }

  // ---------------------------------------------------------------- decoder

  datatype Outcome = Done | BadCast | SizeMismatch

  /** What decoding relies on. */
  ghost predicate Decodable(c: StringColumn, dict: seq<Text>, codes: seq<int>) {
    && Stored(c.slots, c.pool, dict) && ValidCodes(codes, dict)
    && WellFormed(c.codes, |codes|) && Decode(c.codes, |codes|, false) == codes && NoEmptyRun(c.codes, |codes|)
  }

  /** `StringArrayViewer` over the stored dictionary. */
  method ReadDictionary(slots: seq<int>, pool: seq<Cell>, ghost dict: seq<Text>) returns (texts: seq<Text>)
    requires Stored(slots, pool, dict)
    ensures texts == dict
  {
    texts := [];
    var base := 4 * |slots|;
    while |texts| < |slots| - 1
      invariant |texts| <= |dict| && texts == dict[..|texts|]
    {
      var k := |texts|;
      StoredText(slots, pool, dict, k);
      texts := texts + [pool[slots[k] - base..slots[k + 1] - base]];
    }
  }

  lemma StoredText(slots: seq<int>, pool: seq<Cell>, dict: seq<Text>, k: nat)
    requires Stored(slots, pool, dict) && k < |dict|
    ensures var base := 4 * |slots|;
      0 <= slots[k] - base <= slots[k + 1] - base <= |pool| && pool[slots[k] - base..slots[k + 1] - base] == dict[k]
  {
    JoinedSlice(dict, k, |dict|);
  }

  /**
    * `DynamicDictionary::decompress`, raw strings: on either path slots and strings end up as the rows' strings. The
    * cast fails exactly when the flag is set and the recorded scheme is not RLE; only the plain path compares the
    * written size with the recorded one.
    */
  method Decompress(memory: array<Cell>, c: StringColumn, ghost dict: seq<Text>, ghost codes: seq<int>, n: nat,
                    level: nat, scratch: Scratch)
    returns (outcome: Outcome)
    requires Decodable(c, dict, codes) && n == |codes| && Fits(memory.Length, RowTexts(dict, codes)) && scratch.Valid()
    modifies memory, scratch, scratch.From(level, true)
    ensures scratch.Evolved(level, true)
    ensures outcome == BadCast <==> !c.Castable()
    ensures outcome == SizeMismatch <==> !c.useRle && c.totalSize != ColumnSize(RowTexts(dict, codes))
    ensures outcome != BadCast ==> Decoded(memory[..], RowTexts(dict, codes))
  {
    var texts := ReadDictionary(c.slots, c.pool, dict);
    if c.useRle {
      if c.codes.scheme != RLE {
        return BadCast;
      }
      var values, counts := ReadRuns(c, codes, n, level, scratch);
      RunsReadable(values, counts, dict, codes);
      DecompressRuns(memory, texts, values, counts);
      outcome := Done;
    } else {
      var buffer := DecodeChild(StringCodes, c.codes, n, false, level, scratch);
      var written := DecompressPlain(memory, texts, buffer[..n]);
      outcome := if written == c.totalSize then Done else SizeMismatch;
    }
  }

  /** `decompressRuns`: both run streams, two levels down, in buffers sized for the rows. */
  method ReadRuns(c: StringColumn, ghost codes: seq<int>, n: nat, level: nat, scratch: Scratch)
    returns (values: seq<int>, counts: seq<int>)
    requires scratch.Valid() && c.codes.scheme == RLE && n == |codes|
    requires WellFormed(c.codes, n) && Decode(c.codes, n, false) == codes && NoEmptyRun(c.codes, n)
    modifies scratch, scratch.From(level, true)
    ensures scratch.Evolved(level, true)
    ensures |values| == |counts| && Positive(counts) && Total(counts) == n && Expand(values, counts) == codes
  {
    AboutRle(c.codes, n);
    ghost var positive := Decode(c.codes.body.runCounts, c.codes.body.runs, false);
    RunsTakeRows(positive, |positive|);
    hide WellFormed, Decode, NoEmptyRun;
    var runs := c.codes.body.runs;
    var first := ReadRunStream(StringRunValues, c.codes.body.runValues, runs, n, level, scratch);
    values := first[..runs];
    var second := ReadRunStream(StringRunCounts, c.codes.body.runCounts, runs, n, level, scratch);
    counts := second[..runs];
  }

  method ReadRunStream(stack: Stack, stream: Column, runs: nat, n: nat, level: nat, scratch: Scratch)
    returns (buffer: array<int>)
    requires scratch.Valid() && WellFormed(stream, runs) && runs <= n && stack.Decoding()
    modifies scratch, scratch.From(level, true)
    ensures scratch.Evolved(level, true) && runs <= buffer.Length && buffer[..runs] == Decode(stream, runs, false)
  {
    buffer := scratch.GetLevelData(stack, n + SIMD_EXTRA_INTS, level);
    CascadeReader.Decompress(buffer, stream, runs, false, level + 2, scratch);
  }

  /** Codes in range make run values in range. */
  lemma RunsReadable(values: seq<int>, counts: seq<int>, dict: seq<Text>, codes: seq<int>)
    requires |values| == |counts| && Positive(counts) && Total(counts) == |codes| && Expand(values, counts) == codes
    requires ValidCodes(codes, dict)
    ensures CodeRuns(values, counts, dict) && RunTexts(dict, values, counts) == RowTexts(dict, codes)
  {
    forall r | 0 <= r < |values| ensures 0 <= values[r] < |dict| {
      RunOfCodes(values, counts, codes, r);
      assert codes[Start(counts, r)] == values[r];
    }
  }

  /** `decompressNoCopy`: the same codes, one view per row; no size is compared. */
  method DecompressViews(memory: array<Cell>, c: StringColumn, ghost dict: seq<Text>, ghost codes: seq<int>, n: nat,
                         level: nat, scratch: Scratch)
    returns (outcome: Outcome)
    requires Decodable(c, dict, codes) && n == |codes| && scratch.Valid()
    requires ViewCells(n) + |c.pool| <= memory.Length && PoolStart(n) + |c.pool| < TWO_32
    modifies memory, scratch, scratch.From(level, true)
    ensures scratch.Evolved(level, true)
    ensures outcome == if c.Castable() then Done else BadCast
    ensures outcome == Done ==> NoCopyDecoded(memory[..], dict, codes)
  {
    if c.useRle {
      if c.codes.scheme != RLE {
        return BadCast;
      }
      var values, counts := ReadRuns(c, codes, n, level, scratch);
      RunsReadable(values, counts, dict, codes);
      DecompressNoCopy(memory, c.slots, c.pool, dict, Codes.Runs(values, counts), n, codes);
    } else {
      var buffer := DecodeChild(StringCodes, c.codes, n, false, level, scratch);
      DecompressNoCopy(memory, c.slots, c.pool, dict, Codes.Rows(buffer[..n]), n, codes);
    }
    outcome := Done;
  }

  // ---------------------------------------------------------------- round trip

  /**
    * What was compressed can be decoded; live rows come back, null rows as the least string that is not smaller than
    * what they hold. The recorded size is the decoded one exactly when the null rows decode to as many bytes as they
    * hold.
    */
  lemma StringsRoundTrip(c: StringColumn, src: seq<Text>, nulls: NullMap, dict: seq<Text>, codes: seq<int>, less: Order)
    requires Covers(nulls, |src|) && StrictOrder(less) && Sorted(dict, less) && CodesFor(codes, src, dict, less)
    requires forall t :: t in dict <==> t in Entries(src, nulls, |src|)
    requires Stored(c.slots, c.pool, dict) && Lossless(c.codes, codes, None) && NoEmptyRun(c.codes, |src|)
    requires c.totalSize == ColumnSize(src) && ValidCodes(codes, dict)
    ensures Decodable(c, dict, codes) && AgreeOnLive(RowTexts(dict, codes), src, nulls)
    ensures RestoredRows(RowTexts(dict, codes), src, nulls, less)
    ensures c.totalSize == ColumnSize(RowTexts(dict, codes)) <==>
      NullBytes(RowTexts(dict, codes), nulls, |src|) == NullBytes(src, nulls, |src|)
    ensures 1 <= |src| ==> RunTotal(codes) == RunTotal(RowTexts(dict, codes))
    ensures NullsHoldNothing(src, nulls) ==> RowTexts(dict, codes) == src
  {
    LosslessExact(c.codes, codes);
    RowsRestored(src, nulls, dict, codes, less);
    LiveBytesAgree(RowTexts(dict, codes), src, nulls, |src|);
    if 1 <= |src| {
      RunsOfRows(dict, less, codes, |codes|);
    }
    if NullsHoldNothing(src, nulls) {
      AllRowsCoded(src, nulls, dict, codes, less);
    }
  }

  ghost predicate NullsHoldNothing(src: seq<Text>, nulls: NullMap)
    requires Covers(nulls, |src|)
  {
    forall i :: 0 <= i < |src| && !Live(nulls, i) ==> src[i] == []
  }

  /** Every non-empty dictionary entry is some live row's string; the empty one is some row's if null rows are empty. */
  lemma DictionaryUsed(src: seq<Text>, nulls: NullMap, dict: seq<Text>, codes: seq<int>, less: Order, k: nat)
    requires Covers(nulls, |src|) && StrictOrder(less) && Sorted(dict, less) && CodesFor(codes, src, dict, less)
    requires forall t :: t in dict <==> t in Entries(src, nulls, |src|)
    requires k < |dict| && (NullsHoldNothing(src, nulls) || dict[k] != [])
    ensures k in codes && (dict[k] != [] ==> k in LiveCodes(codes, nulls, |codes|))
  {
    assert dict[k] in Entries(src, nulls, |src|);
    var row: nat :| row < |src| && Entry(src, nulls, row) == dict[k];
    LiveRowsCoded(src, nulls, dict, codes, less, row);
    EntriesDiffer(dict, less, codes[row], k);
  }

  /** So frame of reference is never tried first: the smallest code is zero or one. */
  lemma CodesStayUnbiased(picker: Picker, src: seq<Text>, nulls: NullMap, dict: seq<Text>, codes: seq<int>, less: Order,
                          depth: nat)
    requires Covers(nulls, |src|) && StrictOrder(less) && Sorted(dict, less) && CodesFor(codes, src, dict, less)
    requires forall t :: t in dict <==> t in Entries(src, nulls, |src|)
    requires 1 <= |src|
    ensures picker.StaysUnbiased(codes, depth)
  {
    SmallCode(src, nulls, dict, codes, less);
    forall i | 0 <= i < |codes| ensures 0 <= codes[i] {
      assert LowerBoundAt(dict, less, src[i], codes[i]);
    }
  }

  lemma SmallCode(src: seq<Text>, nulls: NullMap, dict: seq<Text>, codes: seq<int>, less: Order)
    requires Covers(nulls, |src|) && StrictOrder(less) && Sorted(dict, less) && CodesFor(codes, src, dict, less)
    requires forall t :: t in dict <==> t in Entries(src, nulls, |src|)
    requires 1 <= |src|
    ensures 0 in codes || 1 in codes
  {
    assert Entry(src, nulls, 0) in dict;
    if dict[0] != [] {
      DictionaryUsed(src, nulls, dict, codes, less, 0);
    } else if |dict| >= 2 {
      EntriesDiffer(dict, less, 0, 1);
      DictionaryUsed(src, nulls, dict, codes, less, 1);
    } else {
      assert LowerBoundAt(dict, less, src[0], codes[0]);
      assert codes[0] == 0 || codes[0] == 1;
    }
  }

  /** The no-copy allocation, computed from the recorded size, holds the views and the pool of every column. */
  lemma PoolAllocated(c: StringColumn, src: seq<Text>, nulls: NullMap, dict: seq<Text>, codes: seq<int>, less: Order)
    requires Covers(nulls, |src|) && StrictOrder(less) && Sorted(dict, less) && CodesFor(codes, src, dict, less)
    requires forall t :: t in dict <==> t in Entries(src, nulls, |src|)
    requires Stored(c.slots, c.pool, dict) && c.totalSize == ColumnSize(src)
    ensures PoolStart(|src|) + |c.pool| <= NoCopySize(c.totalSize, |src|)
  {
    forall i | 0 <= i < |src| && Live(nulls, i) ensures 0 <= codes[i] < |dict| && dict[codes[i]] == src[i] {
      LiveRowsCoded(src, nulls, dict, codes, less, i);
    }
    forall k | 0 <= k < |dict| && |dict[k]| > 0 ensures k in LiveCodes(codes, nulls, |codes|) {
      DictionaryUsed(src, nulls, dict, codes, less, k);
    }
    PoolFits(dict, codes, src, nulls);
  }

  /** The rows that decide about the cast: more than three to a run, but not by more than two. */
  predicate Between(src: seq<Text>) { 3 * RunTotal(src) < |src| < 3 * RunTotal(src) + 3 }

  /**
    * Compress and decompress a string column, provided no null row is coded past the dictionary. Live rows come back.
    * Sampling with a level to spend, the cast can fail on the hot path only, and there only for the two row counts in
    * between; with a single level it does fail for them. Without a level it fails for every flagged column. The size
    * check of the unflagged columns fails exactly when null rows hold another number of bytes than they decode to.
    */
  method StoreAndLoad(picker: Picker, src: seq<Text>, nulls: NullMap, less: Order, depth: nat,
                      forced: Option<SchemeCode>,
                      memory: array<Cell>, level: nat, scratch: Scratch)
    returns (outcome: Outcome, ghost rows: seq<Text>)
    requires picker.Configured() && RLE in picker.schemes && (forced.Some? ==> forced.value in picker.schemes)
    requires picker.Unforced() && forced != Some(ONE_VALUE) && 1 <= picker.compressionLevel
    requires Covers(nulls, |src|) && 1 <= |src| < MAX_ROWS && StrictOrder(less) && NoNullBeyond(src, nulls, less)
    requires forall decoded :: RestoredRows(decoded, src, nulls, less) ==> Fits(memory.Length, decoded)
    requires scratch.Valid()
    modifies picker, memory, scratch, scratch.From(level, true)
    ensures RestoredRows(rows, src, nulls, less) && AgreeOnLive(rows, src, nulls)
    ensures outcome != BadCast ==> Decoded(memory[..], rows)
    ensures outcome == SizeMismatch <==>
      |src| <= 3 * RunTotal(rows) && NullBytes(rows, nulls, |src|) != NullBytes(src, nulls, |src|)
    ensures outcome == BadCast ==> 3 * RunTotal(rows) < |src|
    ensures depth == 0 ==> (outcome == BadCast <==> 3 * RunTotal(rows) < |src|)
    ensures picker.selection == SAMPLE && 1 <= depth && outcome == BadCast ==>
      old(picker.estimationLevel) == 0 && Between(rows)
    ensures picker.selection == SAMPLE && depth == 1 && old(picker.estimationLevel) == 0 ==>
      (outcome == BadCast <==> Between(rows))
    ensures (old(picker.Cautious()) && old(picker.estimationLevel) == 0
             && 3 * RunTotal(rows) < |src| && 4 * |src| < 10 + 3 * LeastBytes(RunTotal(rows))) ==> outcome == BadCast
  {
    hide Decodable, Lossless, NoEmptyRun, Stored, CodesFor, Sorted, StrictOrder, Entries, RunTotal, Decoded;
    hide RestoredRows, NullBytes, NoNullBeyond, AgreeOnLive, ValidCodes, NullsHoldNothing;
    var c, dict, codes := CompressStrings(picker, src, nulls, less, depth, forced);
    CodesValidFor(src, nulls, dict, codes, less);
    StringsRoundTrip(c, src, nulls, dict, codes, less);
    rows := RowTexts(dict, codes);
    outcome := Decompress(memory, c, dict, codes, |src|, level, scratch);
  }

  /** Null rows that hold nothing stay empty: then whatever does not fail in the cast comes back whole. */
  method StoreAndLoadWhole(picker: Picker, src: seq<Text>, nulls: NullMap, less: Order, depth: nat,
                           forced: Option<SchemeCode>, memory: array<Cell>, level: nat, scratch: Scratch)
    returns (outcome: Outcome)
    requires picker.Configured() && RLE in picker.schemes && (forced.Some? ==> forced.value in picker.schemes)
    requires picker.Unforced() && forced != Some(ONE_VALUE) && 1 <= picker.compressionLevel
    requires Covers(nulls, |src|) && 1 <= |src| < MAX_ROWS && StrictOrder(less) && NullsHoldNothing(src, nulls)
    requires Fits(memory.Length, src) && scratch.Valid()
    modifies picker, memory, scratch, scratch.From(level, true)
    ensures outcome != BadCast ==> outcome == Done && Decoded(memory[..], src)
    ensures depth == 0 ==> (outcome == BadCast <==> 3 * RunTotal(src) < |src|)
    ensures picker.selection == SAMPLE && 1 <= depth && outcome == BadCast ==>
      old(picker.estimationLevel) == 0 && Between(src)
    ensures picker.selection == SAMPLE && depth == 1 && old(picker.estimationLevel) == 0 ==>
      (outcome == BadCast <==> Between(src))
    ensures (old(picker.Cautious()) && old(picker.estimationLevel) == 0
             && 3 * RunTotal(src) < |src| && 4 * |src| < 10 + 3 * LeastBytes(RunTotal(src))) ==> outcome == BadCast
  {
    WholeRestored(src, nulls, less);
    ghost var rows;
    outcome, rows := StoreAndLoad(picker, src, nulls, less, depth, forced, memory, level, scratch);
    assert rows == src;
  }

  lemma WholeRestored(src: seq<Text>, nulls: NullMap, less: Order)
    requires Covers(nulls, |src|) && StrictOrder(less) && NullsHoldNothing(src, nulls)
    ensures NoNullBeyond(src, nulls, less)
    ensures forall rows :: RestoredRows(rows, src, nulls, less) ==> rows == src
  {
    forall i | 0 <= i < |src| ensures src[i] in Entries(src, nulls, |src|) && !less(src[i], src[i]) {
      assert Entry(src, nulls, i) == src[i];
    }
    forall i | 0 <= i < |src| ensures DecodesTo(src[i], src[i], Entries(src, nulls, |src|), less) {
    }
    forall rows | RestoredRows(rows, src, nulls, less) ensures rows == src {
      RestoredUnique(rows, src, src, nulls, less);
    }
  }

  // ---------------------------------------------------------------- failing columns

  const A: Text := [Byte(0x61)]
  const B: Text := [Byte(0x62)]

  /**
    * Four equal strings and four others: at any depth the run-length stream of their codes takes 34 bytes or more, next
    * to 32 raw ones, so the flag is set and the cast fails.
    */
  method FlaggedButNotRle(picker: Picker, less: Order, depth: nat, forced: Option<SchemeCode>, memory: array<Cell>,
                          level: nat, scratch: Scratch)
    returns (outcome: Outcome)
    requires picker.Configured() && RLE in picker.schemes && (forced.Some? ==> forced.value in picker.schemes)
    requires picker.Cautious() && forced != Some(ONE_VALUE)
    requires 1 <= picker.compressionLevel && picker.estimationLevel == 0
    requires StrictOrder(less) && Fits(memory.Length, [A, A, A, A, B, B, B, B]) && scratch.Valid()
    modifies picker, memory, scratch, scratch.From(level, true)
    ensures outcome == BadCast
  {
    var src := [A, A, A, A, B, B, B, B];
    TwoRunsOfFour();
    outcome := StoreAndLoadWhole(picker, src, None, less, depth, forced, memory, level, scratch);
  }

  lemma TwoRunsOfFour()
    ensures RunTotal([A, A, A, A, B, B, B, B]) == 2
  {
    var src := [A, A, A, A, B, B, B, B];
    assert A[0] != B[0];
    EqualNeighbours(src, 1, 4);
    EqualNeighbours(src, 5, 8);
  }

  /** Rows that equal their neighbours open no run. */
  lemma {:induction false} EqualNeighbours(rows: seq<Text>, from: nat, to: nat)
    requires 1 <= from <= to <= |rows| && forall i :: from <= i < to ==> rows[i] == rows[i - 1]
    ensures RunTotalTo(rows, to) == RunTotalTo(rows, from)
  {
    if from < to {
      EqualNeighbours(rows, from, to - 1);
    }
  }

  const BB: Text := [Byte(0x62), Byte(0x62)]

  /**
    * A live "bb" next to a null row that holds "a": both get the code of "bb", which is a byte longer than recorded, so
    * the size check fails at any depth and under any configuration.
    */
  method NullBytesMismatch(picker: Picker, depth: nat, forced: Option<SchemeCode>, memory: array<Cell>, level: nat,
                           scratch: Scratch)
    returns (outcome: Outcome)
    requires picker.Configured() && RLE in picker.schemes && (forced.Some? ==> forced.value in picker.schemes)
    requires picker.Unforced() && forced != Some(ONE_VALUE) && 1 <= picker.compressionLevel
    requires Fits(memory.Length, [BB, BB]) && scratch.Valid()
    modifies picker, memory, scratch, scratch.From(level, true)
    ensures outcome == SizeMismatch
  {
    LexicographicIsStrict();
    NullRowTakesNeighbour();
    var src, nulls := [BB, A], Some([true, false]);
    forall decoded | RestoredRows(decoded, src, nulls, Lexicographic) ensures Fits(memory.Length, decoded) {
      assert decoded == [BB, BB];
    }
    hide RestoredRows, NoNullBeyond, Lexicographic, StrictOrder;
    ghost var rows;
    outcome, rows := StoreAndLoad(picker, src, nulls, Lexicographic, depth, forced, memory, level, scratch);
    assert rows == [BB, BB];
    assert RunTotalTo(rows, 1) == 1 && RunTotalTo(rows, 2) == 1;
    assert NullBytes(rows, nulls, 1) == 0 && NullBytes(src, nulls, 1) == 0;
  }

  lemma NullRowTakesNeighbour()
    ensures var src, nulls := [BB, A], Some([true, false]);
      && NoNullBeyond(src, nulls, Lexicographic)
      && forall rows :: RestoredRows(rows, src, nulls, Lexicographic) ==> rows == [BB, BB]
  {
    var src, nulls := [BB, A], Some([true, false]);
    var entries := Entries(src, nulls, 2);
    assert entries == {BB, []} by {
      assert Entry(src, nulls, 0) == BB && Entry(src, nulls, 1) == [];
    }
    LexicographicIsStrict();
    assert !Lexicographic(BB, A) && Lexicographic([], A) && Lexicographic([], BB);
    forall rows | RestoredRows(rows, src, nulls, Lexicographic) ensures rows == [BB, BB] {
      assert DecodesTo(rows[0], BB, entries, Lexicographic) && DecodesTo(rows[1], A, entries, Lexicographic);
    }
  }

  /** A null row that holds "b" next to a live "a": its code is one past the dictionary. */
  lemma NullRowBeyond(dict: seq<Text>, codes: seq<int>)
    requires Sorted(dict, Lexicographic) && CodesFor(codes, [A, B], dict, Lexicographic)
    requires forall t :: t in dict <==> t in Entries([A, B], Some([true, false]), 2)
    ensures codes[1] == |dict| && !ValidCodes(codes, dict)
  {
    var src, nulls := [A, B], Some([true, false]);
    forall i | 0 <= i < |dict| ensures Lexicographic(dict[i], B) {
      assert dict[i] in Entries(src, nulls, 2);
      assert dict[i] == A || dict[i] == [];
    }
    BeyondCode(dict, Lexicographic, src[1], codes[1]);
  }

  // ---------------------------------------------------------------- the order of strings

  /** Strings hold bytes only; the other kinds of cell are ordered to make the order total. */
  function Key(c: Cell): (int, int, int) {
    match c
    case Byte(value) => (0, value as int, 0)
    case Slot(offset) => (1, offset, 0)
    case View(length, start) => (2, length, start)
  }

  predicate CellLess(a: Cell, b: Cell) {
    var (k, v, w), (l, x, y) := Key(a), Key(b);
    k < l || (k == l && (v < x || (v == x && w < y)))
  }

  /** `std::string_view`: byte by byte, and a prefix comes first. */
  predicate Lexicographic(a: Text, b: Text) {
    if |b| == 0 then false
    else if |a| == 0 then true
    else if a[0] == b[0] then Lexicographic(a[1..], b[1..])
    else CellLess(a[0], b[0])
  }

  lemma {:induction false} LexicographicTotal(a: Text, b: Text)
    ensures !Lexicographic(a, a) && (a == b || Lexicographic(a, b) || Lexicographic(b, a))
  {
    if |a| > 0 {
      LexicographicTotal(a[1..], if |b| > 0 then b[1..] else []);
      assert |b| > 0 && a[0] == b[0] && a[1..] == b[1..] ==> a == b by {
        assert a == [a[0]] + a[1..];
        assert |b| > 0 ==> b == [b[0]] + b[1..];
      }
    }
  }

  lemma {:induction false} LexicographicTransitive(a: Text, b: Text, c: Text)
    ensures Lexicographic(a, b) && Lexicographic(b, c) ==> Lexicographic(a, c)
  {
    if |a| > 0 && |b| > 0 && |c| > 0 {
      LexicographicTransitive(a[1..], b[1..], c[1..]);
    }
  }

  lemma LexicographicIsStrict()
    ensures StrictOrder(Lexicographic)
  {
    forall a: Text, b: Text ensures !Lexicographic(a, a) && (a == b || Lexicographic(a, b) || Lexicographic(b, a)) {
      LexicographicTotal(a, b);
    }
    forall a: Text, b: Text, c: Text ensures Lexicographic(a, b) && Lexicographic(b, c) ==> Lexicographic(a, c) {
      LexicographicTransitive(a, b, c);
    }
  }
}
