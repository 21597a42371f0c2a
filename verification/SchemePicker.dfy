/** The cascading scheme picker for integer columns: picker, estimates and scheme encoders call each other. */
module SchemePicker {
  import opened Words
  import opened RunLength
  import opened Cascade
  import opened NumberStats
  import opened IntegerSchemes
  import opened WrittenColumns

  datatype Selection = SAMPLE | TRY_ALL

  /** A column's raw size must fit the 32-bit size the statistics keep. */
  const MAX_ROWS: nat := 0x4000_0000

  /** `shouldUseFOR`: at least eight bits are needed for the smallest value. */
  predicate NeedsEightBits(min: int) { min < 0 || 8 <= BitsNeeded(min) }

  /** From 128 on, and for any negative number. */
  lemma EightBitsFrom128(min: int)
    ensures NeedsEightBits(min) <==> min < 0 || 128 <= min
  {
    if 1 <= min {
      BitsNeededExact(min);
      assert Power2(7) == 128;
      if 8 <= BitsNeeded(min) {
        Power2Monotone(7, BitsNeeded(min) - 1);
      } else {
        Power2Monotone(BitsNeeded(min), 7);
      }
    }
  }

  /** The size a dictionary is estimated at: entries, packed codes, headers, and a bit per 64 rows. */
  function DictionaryBytes(distinct: nat, rows: nat): nat {
    4 * distinct + rows * BitsNeeded(distinct) / 8 + 10 + rows * 2 / 128
  }

  /** Four bytes an entry, as many bits a row as the number of entries has, a byte for each whole 64 rows, and ten. */
  lemma DictionaryBytesAre(distinct: nat, rows: nat) returns (packed: nat, overhead: nat)
    ensures DictionaryBytes(distinct, rows) == 4 * distinct + packed + overhead + 10
    ensures 8 * packed <= rows * BitsNeeded(distinct) < 8 * packed + 8 && 64 * overhead <= rows < 64 * overhead + 64
  {
    packed, overhead := rows * BitsNeeded(distinct) / 8, rows * 2 / 128;
  }

  /** One row takes four bytes, two or more at least eight. */
  function LeastBytes(n: nat): nat { if n == 0 then 0 else if n == 1 then 4 else 8 }

  /** What happened on the way: the picker was called, an estimate was returned, or a stream was compressed. */
  datatype Event =
    | Asked(rows: seq<int>, nulls: NullMap, level: nat, force: Option<SchemeCode>)
    | Estimated(code: SchemeCode, rows: seq<int>, nulls: NullMap, level: nat, ratio: real)
    | Compressed(code: SchemeCode, rows: seq<int>, nulls: NullMap, level: nat, size: nat)

  /** The event happened after the first `from` ones. */
  ghost predicate Noted(history: seq<Event>, from: nat, e: Event) {
    exists k :: from <= k < |history| && history[k] == e
  }

  lemma NotedStays(before: seq<Event>, after: seq<Event>, from: nat)
    requires before <= after
    ensures forall e: Event :: Noted(before, from, e) ==> Noted(after, from, e)
  {
    forall e: Event | Noted(before, from, e) ensures Noted(after, from, e) {
      var k :| from <= k < |before| && before[k] == e;
      assert after[k] == e;
    }
  }

  lemma NotedEarlier(history: seq<Event>, from: nat, earlier: nat)
    requires earlier <= from
    ensures forall e: Event :: Noted(history, from, e) ==> Noted(history, earlier, e)
  {
  }

  /** All these estimates were made for this column after the first `from` events. */
  ghost predicate Estimates(history: seq<Event>, ratios: map<SchemeCode, real>, src: seq<int>, nulls: NullMap,
                            level: nat, from: nat) {
    forall s :: s in ratios ==> Noted(history, from, Estimated(s, src, nulls, level, ratios[s]))
  }

  ghost predicate Trials(history: seq<Event>, sizes: map<SchemeCode, nat>, src: seq<int>, nulls: NullMap, level: nat,
                         from: nat) {
    forall s :: s in sizes ==> Noted(history, from, Compressed(s, src, nulls, level, sizes[s]))
  }

  /** One more estimate at the end of the history; what was noted before stays. */
  lemma RatioNoted(before: seq<Event>, after: seq<Event>, ratios: map<SchemeCode, real>, sizes: map<SchemeCode, nat>,
                   src: seq<int>, nulls: NullMap, level: nat, from: nat, s: SchemeCode, ratio: real)
    requires before < after && from <= |before| && after[|after| - 1] == Estimated(s, src, nulls, level, ratio)
    requires Estimates(before, ratios, src, nulls, level, from) && Trials(before, sizes, src, nulls, level, from)
    ensures Estimates(after, ratios[s := ratio], src, nulls, level, from)
    ensures Trials(after, sizes, src, nulls, level, from)
  {
    NotedStays(before, after, from);
    NotedLast(after, from, Estimated(s, src, nulls, level, ratio));
  }

  lemma SizeNoted(before: seq<Event>, after: seq<Event>, ratios: map<SchemeCode, real>, sizes: map<SchemeCode, nat>,
                  src: seq<int>, nulls: NullMap, level: nat, from: nat, s: SchemeCode, size: nat)
    requires before < after && from <= |before| && after[|after| - 1] == Compressed(s, src, nulls, level, size)
    requires Estimates(before, ratios, src, nulls, level, from) && Trials(before, sizes, src, nulls, level, from)
    ensures Estimates(after, ratios, src, nulls, level, from)
    ensures Trials(after, sizes[s := size], src, nulls, level, from)
  {
    NotedStays(before, after, from);
    NotedLast(after, from, Compressed(s, src, nulls, level, size));
  }

  lemma NotedLast(history: seq<Event>, from: nat, e: Event)
    requires from < |history| && history[|history| - 1] == e
    ensures Noted(history, from, e)
  {
  }

  /** The running best of an estimate loop. */
  ghost predicate Best(ratios: map<SchemeCode, real>, preferred: Option<SchemeCode>, best: real) {
    && (if preferred.Some? then preferred.value in ratios && ratios[preferred.value] == best else best == 0.0)
    && forall s :: s in ratios ==> ratios[s] <= best
  }

  lemma BetterStays(ratios: map<SchemeCode, real>, s: SchemeCode, ratio: real, preferred: Option<SchemeCode>,
                    best: real)
    requires Best(ratios, preferred, best) && s !in ratios
    ensures if ratio > best then Best(ratios[s := ratio], Some(s), ratio) else Best(ratios[s := ratio], preferred, best)
    ensures best > 0.0 ==> preferred.Some?
  {
  }

  /** Exactly the schemes with a positive estimate were run. */
  ghost predicate PositiveTried(ratios: map<SchemeCode, real>, sizes: map<SchemeCode, nat>) {
    forall s :: s in sizes <==> s in ratios && ratios[s] > 0.0
  }

  /** The running minimum of the try-all loop; sizes start below the greatest 32-bit number. */
  ghost predicate Smallest(sizes: map<SchemeCode, nat>, preferred: Option<SchemeCode>, least: int) {
    && (if preferred.Some? then preferred.value in sizes && sizes[preferred.value] == least else least == TWO_32 - 1)
    && forall s :: s in sizes ==> least <= sizes[s]
  }

  lemma SmallerStays(sizes: map<SchemeCode, nat>, s: SchemeCode, tried: bool, size: nat, preferred: Option<SchemeCode>,
                     least: int)
    requires Smallest(sizes, preferred, least) && s !in sizes
    ensures !tried ==> Smallest(sizes, preferred, least)
    ensures tried ==>
      if size < least then Smallest(sizes[s := size], Some(s), size) else Smallest(sizes[s := size], preferred, least)
    ensures size < TWO_32 - 1 && !(size < least) ==> preferred.Some?
  {
  }

  /** The thread's cascade state together with the configuration it reads. */
  class Picker {
    var compressionLevel: nat
    var estimationLevel: nat
    var overrideScheme: Option<SchemeCode>
    const schemes: set<SchemeCode>
    const selection: Selection
    const forEnabled: bool
    const sampleCount: nat
    const sampleSize: nat
    const runLengthThreshold: nat
    const frequencyThresholdPct: nat
    const forcedCounts: Option<SchemeCode>
    // what the external codecs write for a set of rows, a tail of a packed column, and a patched column
    const bitmapBytes: set<nat> -> nat
    const tailWords: seq<int> -> nat
    const patchedWords: seq<int> -> nat
    ghost var history: seq<Event>

    constructor (schemes: set<SchemeCode>, selection: Selection, forEnabled: bool, sampleCount: nat, sampleSize: nat,
                 runLengthThreshold: nat, frequencyThresholdPct: nat, forcedCounts: Option<SchemeCode>,
                 overrideScheme: Option<SchemeCode>, bitmapBytes: set<nat> -> nat, tailWords: seq<int> -> nat,
                 patchedWords: seq<int> -> nat)
      ensures compressionLevel == 0 && estimationLevel == 0 && this.overrideScheme == overrideScheme
      ensures this.schemes == schemes && this.selection == selection && this.forcedCounts == forcedCounts
      ensures this.sampleCount == sampleCount && this.sampleSize == sampleSize && this.forEnabled == forEnabled
      ensures this.runLengthThreshold == runLengthThreshold && this.frequencyThresholdPct == frequencyThresholdPct
      ensures this.bitmapBytes == bitmapBytes && this.tailWords == tailWords && this.patchedWords == patchedWords
    {
      compressionLevel, estimationLevel := 0, 0;
      this.overrideScheme := overrideScheme;
      this.schemes, this.selection, this.forEnabled := schemes, selection, forEnabled;
      this.sampleCount, this.sampleSize := sampleCount, sampleSize;
      this.runLengthThreshold, this.frequencyThresholdPct := runLengthThreshold, frequencyThresholdPct;
      this.forcedCounts := forcedCounts;
      this.bitmapBytes, this.tailWords, this.patchedWords := bitmapBytes, tailWords, patchedWords;
      history := [];
    }

    /** What the scheme pool insists on, and every scheme that may be requested by code is registered. */
    predicate Configured()
      reads this
    {
      && UNCOMPRESSED in schemes && ONE_VALUE in schemes
      && (DICT in schemes ==> BP in schemes)
      && 1 <= sampleCount && 1 <= sampleSize
      && (forcedCounts.Some? ==> forcedCounts.value in schemes)
      && (overrideScheme.Some? ==> overrideScheme.value in schemes)
    }

    /** No configuration entry asks for ONE_VALUE regardless of the data. */
    predicate Unforced()
      reads this
    {
      forcedCounts != Some(ONE_VALUE) && overrideScheme != Some(ONE_VALUE)
    }

    /** Both level counters are back, and the override is as before or used up. */
    twostate predicate Restored()
      reads this
    {
      && compressionLevel == old(compressionLevel) && estimationLevel == old(estimationLevel)
      && (overrideScheme == old(overrideScheme) || overrideScheme == None)
      && old(history) <= history
    }

    // -------------------------------------------------------------- picker

    ghost predicate Input(src: seq<int>, nulls: NullMap) {
      Covers(nulls, |src|) && AllS32(src) && |src| < MAX_ROWS
    }

    /**
      * The stream is what the scheme's encoder writes, layer by layer, under any configuration. Where nothing is
      * requested blindly, no ONE_VALUE stream in it loses anything either; only the stream's own ONE_VALUE may.
      */
    ghost predicate Faithful(code: SchemeCode, dest: Body, src: seq<int>, nulls: NullMap, unforced: bool)
      requires Covers(nulls, |src|)
    {
      && Written(Column(code, dest), src, nulls, false)
      && (unforced && (code == ONE_VALUE ==> ConstantAtMin(src, nulls)) ==>
        Written(Column(code, dest), src, nulls, true))
    }

    /** Rows are sampled, and no code is requested blindly: below the top level ONE_VALUE is never recorded. */
    predicate Cautious()
      reads this
    {
      Unforced() && selection == SAMPLE
    }

    /**
      * What is known of a stream's size: run-length streams take ten bytes, the values and twice the counts, and their
      * nested streams are at most raw on the hot path and exactly raw when no level is left for them.
      */
    ghost predicate SizeBounds(code: SchemeCode, size: nat, src: seq<int>, nulls: NullMap, level: nat, hot: bool,
                               cautious: bool)
      requires Covers(nulls, |src|)
    {
      && (|src| >= 1 ==> 4 <= size)
      && (code == UNCOMPRESSED ==> size == 4 * |src|)
      && (code != ONE_VALUE ==> LeastBytes(|src|) <= size)
      && (code == RLE && 1 <= |src| ==>
            && (cautious ==> 10 + 3 * LeastBytes(EncoderRuns(src, nulls)) <= size)
            && (hot ==> size <= RawRuns(src, nulls))
            && (level == 1 ==> size == RawRuns(src, nulls)))
      && NestedBounds(code, size, src, nulls, level, hot, cautious)
    }

    /** The other schemes have one nested stream, of as many values as the column has rows or exceptions. */
    ghost predicate NestedBounds(code: SchemeCode, size: nat, src: seq<int>, nulls: NullMap, level: nat, hot: bool,
                                 cautious: bool)
      requires Covers(nulls, |src|)
    {
      match code
      case DICT => OneNested(size, 5 + 4 * |Distinct(src)|, |src|, level, hot, cautious)
      case FOR => OneNested(size, 5, |src|, level, hot, cautious)
      case FREQUENCY =>
        forall top :: TopOf(top, src, nulls) ==>
          var rows := ExceptionRows(src, nulls, top);
          OneNested(size, 9 + bitmapBytes(rows), |rows|, level, hot, cautious)
      case _ => true
    }

    /** `fixed` bytes and a stream of `rows` values. */
    ghost predicate OneNested(size: nat, fixed: nat, rows: nat, level: nat, hot: bool, cautious: bool) {
      && (cautious ==> fixed + LeastBytes(rows) <= size)
      && (hot ==> size <= fixed + 4 * rows)
      && (level == 1 ==> size == fixed + 4 * rows)
    }

    lemma BoundsKeep(code: SchemeCode, size: nat, src: seq<int>, nulls: NullMap, level: nat, hot: bool, settled: bool,
                     cautious: bool)
      requires Covers(nulls, |src|) && SizeBounds(code, size, src, nulls, level, hot, settled)
      requires cautious ==> settled
      ensures SizeBounds(code, size, src, nulls, level, hot, cautious)
    {
      hide TopOf, Distinct, ExceptionRows, LeastBytes, EncoderRuns;
    }

    lemma LeafBounds(code: SchemeCode, size: nat, src: seq<int>, nulls: NullMap, level: nat, hot: bool, cautious: bool)
      requires Covers(nulls, |src|) && code !in {DICT, FOR, FREQUENCY}
      ensures NestedBounds(code, size, src, nulls, level, hot, cautious)
    {
    }

    /** The size of a stream as its encoder reports it: a run-length stream's counts are counted twice. */
    function StreamSize(c: Column): nat
      decreases c
    {
      match c.body
      case Raw(values) => 4 * |values|
      case Constant(_) => 4
      case Dictionary(dict, codes) => 5 + 4 * |dict| + StreamSize(codes)
      case RunLengths(_, vs, cs) => 10 + StreamSize(vs) + 2 * StreamSize(cs)
      case Exceptions(_, rows, ex) => 9 + bitmapBytes(rows) + StreamSize(ex)
      case Biased(_, rest) => 5 + StreamSize(rest)
      case Packed(words, tail) => 8 + 4 * (|words| + tailWords(tail))
      case Foreign(payload) => 8 + 4 * patchedWords(payload) + 16
    }

    /** The bytes laid out one after the other: each nested stream once. */
    ghost function LaidOut(c: Column): nat
      decreases c
    {
      match c.body
      case RunLengths(_, vs, cs) => 10 + LaidOut(vs) + LaidOut(cs)
      case Dictionary(dict, codes) => 5 + 4 * |dict| + LaidOut(codes)
      case Exceptions(_, rows, ex) => 9 + bitmapBytes(rows) + LaidOut(ex)
      case Biased(_, rest) => 5 + LaidOut(rest)
      case _ => StreamSize(c)
    }

    ghost predicate HasRunLengths(c: Column)
      decreases c
    {
      match c.body
      case RunLengths(_, _, _) => true
      case Dictionary(_, codes) => HasRunLengths(codes)
      case Exceptions(_, _, ex) => HasRunLengths(ex)
      case Biased(_, rest) => HasRunLengths(rest)
      case _ => false
    }

    /** The reported size is that of the layout exactly when there is no run-length stream at any depth. */
    lemma {:induction false} SizeExactWithoutRuns(c: Column, src: seq<int>, nulls: NullMap)
      requires Legal(src, nulls) && Written(c, src, nulls, false)
      ensures LaidOut(c) <= StreamSize(c) && (LaidOut(c) == StreamSize(c) <==> !HasRunLengths(c))
      ensures 1 <= |src| ==> 1 <= StreamSize(c)
      decreases c
    {
      match c.body
      case RunLengths(_, vs, cs) =>
        RunLists(src, nulls);
        RunStreams(c, src, nulls, false);
        hide Written, Encoded, RunsTo, Legal;
        var runs := RunsTo(src, nulls, |src|);
        SizeExactWithoutRuns(vs, runs.values, None);
        SizeExactWithoutRuns(cs, runs.counts, None);
      case Dictionary(_, codes) =>
        var stream := CodesStream(c, src, nulls, false);
        hide Written, Coded, Legal;
        SizeExactWithoutRuns(codes, stream, None);
      case Exceptions(_, _, ex) =>
        var stream := ExceptionStream(c, src, nulls, false);
        hide Written, ExceptionsTo, Legal;
        SizeExactWithoutRuns(ex, stream, None);
      case Biased(bias, rest) =>
        BiasedChild(c, src, nulls);
        hide Written, Legal;
        SizeExactWithoutRuns(rest, Biases(src, nulls, bias), nulls);
      case _ => LeafHasBytes(c, src, nulls);
    }

    lemma BiasedChild(c: Column, src: seq<int>, nulls: NullMap)
      requires Legal(src, nulls) && Written(c, src, nulls, false) && c.body.Biased?
      ensures var biased := Biases(src, nulls, c.body.bias);
        Legal(biased, nulls) && Written(c.body.rest, biased, nulls, false)
    {
    }

    lemma LeafHasBytes(c: Column, src: seq<int>, nulls: NullMap)
      requires Covers(nulls, |src|) && Written(c, src, nulls, false)
      requires c.body.Raw? || c.body.Constant? || c.body.Packed? || c.body.Foreign?
      ensures 1 <= |src| ==> 1 <= StreamSize(c)
    {
    }

    /**
      * With a single level both run streams are raw. A requested run-length stream whose layout is not larger than the
      * raw column is dropped all the same exactly in a gap of four bytes a run.
      */
    lemma DroppedThoughSmaller(c: Column, code: SchemeCode, src: seq<int>, nulls: NullMap, events: seq<Event>,
                               from: nat)
      requires 1 <= |src| && Legal(src, nulls) && Written(c, src, nulls, false) && c.scheme == RLE
      requires c.body.runValues.scheme == UNCOMPRESSED == c.body.runCounts.scheme
      requires Honoured(RLE, code, src, nulls, 1, true, events, from)
      ensures var runs := EncoderRuns(src, nulls);
        code == UNCOMPRESSED && LaidOut(c) <= 4 * |src| <==> 10 + 8 * runs <= 4 * |src| < 10 + 12 * runs
    {
      RunLists(src, nulls);
      RunStreams(c, src, nulls, false);
      RawStream(c.body.runValues, RunsTo(src, nulls, |src|).values);
      RawStream(c.body.runCounts, RunsTo(src, nulls, |src|).counts);
      hide Written, Encoded, RunsTo, Legal, Noted;
    }

    lemma RawStream(c: Column, rows: seq<int>)
      requires Written(c, rows, None, false) && c.scheme == UNCOMPRESSED
      ensures c.body.Raw? && LaidOut(c) == 4 * |rows|
    {
    }

    /** What a scheme's encoder asks the picker for: every nested stream one level down, and only FOR's with nulls. */
    ghost predicate Nested(code: SchemeCode, src: seq<int>, nulls: NullMap, level: nat, events: seq<Event>, from: nat)
      requires Covers(nulls, |src|) && 1 <= |src| && 1 <= level
    {
      match code
      case RLE =>
        var runs := RunsTo(src, nulls, |src|);
        && Noted(events, from, Asked(runs.values, None, level - 1, None))
        && Noted(events, from, Asked(runs.counts, None, level - 1, forcedCounts))
      case DICT =>
        exists dict, codes ::
          Coded(dict, codes, src) && Noted(events, from, Asked(codes, None, level - 1, Some(BP)))
      case FREQUENCY =>
        exists top, rows, ex :: TopOf(top, src, nulls) && ExceptionsTo(src, nulls, top, rows, ex, |src|)
          && Noted(events, from, Asked(ex, None, level - 1, None))
      case FOR =>
        exists min :: Least(src, min) && Noted(events, from, Asked(Biases(src, nulls, min), nulls, level - 1, None))
      case _ => true
    }

    lemma NestedStays(code: SchemeCode, src: seq<int>, nulls: NullMap, level: nat, before: seq<Event>,
                      after: seq<Event>, from: nat)
      requires Covers(nulls, |src|) && 1 <= |src| && 1 <= level && before <= after
      requires Nested(code, src, nulls, level, before, from)
      ensures Nested(code, src, nulls, level, after, from)
    {
      NotedStays(before, after, from);
      hide Noted, Coded, ExceptionsTo, TopOf, Least, RunsTo;
    }

    /** A run-length stream over raw values and raw counts. */
    ghost function RawRuns(src: seq<int>, nulls: NullMap): nat
      requires 1 <= |src| && Covers(nulls, |src|)
    {
      10 + 12 * EncoderRuns(src, nulls)
    }

    /** FOR is not tried first: it is off, out of depth, or the minimum needs less than eight bits. */
    ghost predicate StaysUnbiased(src: seq<int>, level: nat) {
      level <= 1 || !forEnabled || FOR !in schemes || forall m :: Least(src, m) ==> !NeedsEightBits(m)
    }

    /** Nothing live, or one value in all rows. */
    ghost predicate OneValueOnly(src: seq<int>, nulls: NullMap)
      requires Covers(nulls, |src|)
    {
      NullRows(nulls, |src|) == |src| || |Distinct(src)| == 1
    }

    /** The scheme has the greatest of the estimates just made: of all registered schemes, below the top but one. */
    ghost predicate BestEstimate(code: SchemeCode, ratios: map<SchemeCode, real>, top: bool, src: seq<int>,
                                 nulls: NullMap, level: nat, events: seq<Event>, from: nat)
    {
      && ratios.Keys == schemes - (if top then {} else {ONE_VALUE})
      && Estimates(events, ratios, src, nulls, level, from)
      && code in ratios && 1.0 <= ratios[code] && forall s :: s in ratios ==> ratios[s] <= ratios[code]
    }

    /** The scheme has the smallest of the streams just written: of all registered schemes with a positive estimate. */
    ghost predicate SmallestStream(code: SchemeCode, ratios: map<SchemeCode, real>, sizes: map<SchemeCode, nat>,
                                   src: seq<int>, nulls: NullMap, level: nat, events: seq<Event>, from: nat)
    {
      && ratios.Keys == schemes && Estimates(events, ratios, src, nulls, level, from)
      && PositiveTried(ratios, sizes) && Trials(events, sizes, src, nulls, level, from)
      && code in sizes && forall s :: s in sizes ==> sizes[code] <= sizes[s]
    }

    /** The scheme the picker goes for, told from the column, the configuration and the picker's state at the call. */
    ghost predicate Requested(request: SchemeCode, src: seq<int>, nulls: NullMap, level: nat, force: Option<SchemeCode>,
                              top: bool, preset: Option<SchemeCode>, events: seq<Event>, from: nat)
      requires Covers(nulls, |src|)
    {
      if top && OneValueOnly(src, nulls) then request == ONE_VALUE
      else if level == 0 || |src| == 0 then request == UNCOMPRESSED
      else if !StaysUnbiased(src, level) then request == FOR
      else if selection == TRY_ALL then
        exists ratios, sizes :: SmallestStream(request, ratios, sizes, src, nulls, level, events, from)
      else if force.Some? then request == force.value
      else if preset.Some? then request == preset.value
      else exists ratios :: BestEstimate(request, ratios, top, src, nulls, level, events, from)
    }

    lemma RequestedStays(request: SchemeCode, src: seq<int>, nulls: NullMap, level: nat, force: Option<SchemeCode>,
                         top: bool, preset: Option<SchemeCode>, before: seq<Event>, after: seq<Event>, from: nat,
                         earlier: nat)
      requires Covers(nulls, |src|) && before <= after && earlier <= from
      requires Requested(request, src, nulls, level, force, top, preset, before, from)
      ensures Requested(request, src, nulls, level, force, top, preset, after, earlier)
    {
      NotedStays(before, after, from);
      NotedEarlier(after, from, earlier);
      hide OneValueOnly, StaysUnbiased, SmallestStream, BestEstimate, Noted;
      forall ratios, sizes | SmallestStream(request, ratios, sizes, src, nulls, level, before, from)
        ensures SmallestStream(request, ratios, sizes, src, nulls, level, after, earlier)
      {
        SmallestStays(request, ratios, sizes, src, nulls, level, before, after, from, earlier);
      }
      forall ratios | BestEstimate(request, ratios, top, src, nulls, level, before, from)
        ensures BestEstimate(request, ratios, top, src, nulls, level, after, earlier)
      {
        BestStays(request, ratios, top, src, nulls, level, before, after, from, earlier);
      }
    }

    lemma BestStays(code: SchemeCode, ratios: map<SchemeCode, real>, top: bool, src: seq<int>, nulls: NullMap,
                    level: nat, before: seq<Event>, after: seq<Event>, from: nat, earlier: nat)
      requires forall e: Event :: Noted(before, from, e) ==> Noted(after, earlier, e)
      requires BestEstimate(code, ratios, top, src, nulls, level, before, from)
      ensures BestEstimate(code, ratios, top, src, nulls, level, after, earlier)
    {
      hide Noted;
    }

    lemma SmallestStays(code: SchemeCode, ratios: map<SchemeCode, real>, sizes: map<SchemeCode, nat>, src: seq<int>,
                        nulls: NullMap, level: nat, before: seq<Event>, after: seq<Event>, from: nat, earlier: nat)
      requires forall e: Event :: Noted(before, from, e) ==> Noted(after, earlier, e)
      requires SmallestStream(code, ratios, sizes, src, nulls, level, before, from)
      ensures SmallestStream(code, ratios, sizes, src, nulls, level, after, earlier)
    {
      hide Noted;
    }

    /**
      * When a requested scheme is recorded: always while estimating, and on the hot path when its stream, compressed
      * since the event number `from`, is not larger than the raw column. For RLE the number of runs decides if no level
      * is left for the nested streams, and suffices otherwise.
      */
    ghost predicate Honoured(request: SchemeCode, code: SchemeCode, src: seq<int>, nulls: NullMap, level: nat,
                             hot: bool,
                             events: seq<Event>, from: nat)
      requires 1 <= |src| && Covers(nulls, |src|)
    {
      && (if !hot || request == UNCOMPRESSED then code == request else
            exists size: nat :: Noted(events, from, Compressed(request, src, nulls, level, size))
              && code == if size <= 4 * |src| then request else UNCOMPRESSED)
      && (request == RLE && hot ==>
            && (RawRuns(src, nulls) <= 4 * |src| ==> code == RLE)
            && (level == 1 && code == RLE ==> RawRuns(src, nulls) <= 4 * |src|))
    }

    /** The recorded scheme is the one the picker went for, unless that one's stream came out too large. */
    ghost predicate Decided(code: SchemeCode, src: seq<int>, nulls: NullMap, level: nat, force: Option<SchemeCode>,
                            top: bool, preset: Option<SchemeCode>, hot: bool, events: seq<Event>, from: nat)
      requires 1 <= |src| && Covers(nulls, |src|)
    {
      exists request :: Requested(request, src, nulls, level, force, top, preset, events, from)
        && Honoured(request, code, src, nulls, level, hot, events, from)
    }

    /** A call from outside, on the hot path. */
    predicate AtTop()
      reads this
    {
      estimationLevel == 0 && compressionLevel == 0
    }

    /**
      * `CSchemePicker::compress`. What is written is the recorded scheme's encoding of the column, layer by layer,
      * whatever the estimates say and whatever is requested; unless something asks for ONE_VALUE regardless of the
      * data, it decodes to the input on every live row. On the hot path the stream is never larger than the raw column.
      */
    method Compress(src: seq<int>, nulls: NullMap, level: nat, force: Option<SchemeCode>)
      returns (dest: Body, afterSize: nat, schemeCode: SchemeCode)
      requires Configured() && Input(src, nulls) && (force.Some? ==> force.value in schemes)
      requires |src| == 0 ==> 1 <= compressionLevel
      modifies this
      ensures Restored() && schemeCode in schemes
      ensures estimationLevel == 0 ==> afterSize <= 4 * |src|
      ensures Faithful(schemeCode, dest, src, nulls, old(Unforced()))
      ensures afterSize == StreamSize(Column(schemeCode, dest))
      ensures SizeBounds(schemeCode, afterSize, src, nulls, level, estimationLevel == 0, old(Cautious()))
      ensures Noted(history, |old(history)|, Asked(src, nulls, level, force))
      ensures 1 <= |src| ==>
        Decided(schemeCode, src, nulls, level, force, old(AtTop()), old(overrideScheme), estimationLevel == 0, history,
                |old(history)|)
      ensures level == 0 && 1 <= old(compressionLevel) ==> schemeCode == UNCOMPRESSED
      ensures old(Cautious()) && 1 <= old(compressionLevel) && force != Some(ONE_VALUE) ==> schemeCode != ONE_VALUE
      ensures (selection == SAMPLE && force.Some? && 1 <= old(compressionLevel) && 1 <= level && 1 <= |src|
               && StaysUnbiased(src, level)) ==>
        Honoured(force.value, schemeCode, src, nulls, level, estimationLevel == 0, history, |old(history)|)
      ensures old(Unforced()) && force != Some(ONE_VALUE) ==>
        Written(Column(schemeCode, dest), src, nulls, true) && Lossless(Column(schemeCode, dest), src, nulls)
      ensures schemeCode in {UNCOMPRESSED, BP, PFOR} ==> Lossless(Column(schemeCode, dest), src, nulls)
      ensures schemeCode == ONE_VALUE ==> (Lossless(Column(schemeCode, dest), src, nulls) <==>
        ConstantAtMin(src, nulls))
      ensures schemeCode == ONE_VALUE && force != Some(ONE_VALUE) && old(overrideScheme) != Some(ONE_VALUE) ==>
        ConstantAtMin(src, nulls)
      decreases level, 6
    {
      hide Written, Lossless, EncoderRuns, Describes, Faithful, Honoured, Eligible, Requested, SizeBounds, StreamSize,
        Noted, StaysUnbiased, ConstantAtMin, OneValueOnly, NullRows, Decided;
      compressionLevel := compressionLevel + 1;
      history := history + [Asked(src, nulls, level, force)];
      ghost var asked := history;
      NotedLast(asked, |old(history)|, Asked(src, nulls, level, force));
      var stats := GenerateStats(src, nulls, 4);
      StatsDecide(stats, src, nulls, level);
      ghost var ratios, sizes;
      var preferred;
      preferred, ratios, sizes := Prefer(src, nulls, stats, level, force);
      ghost var unforced, cautious, events := Unforced(), Cautious(), history;
      dest, afterSize, schemeCode := Settle(preferred, src, nulls, stats, level);
      BoundsKeep(schemeCode, afterSize, src, nulls, level, estimationLevel == 0, cautious, old(Cautious()));
      compressionLevel := compressionLevel - 1;
      NotedStays(asked, history, |old(history)|);
      FaithfulKeeps(schemeCode, dest, src, nulls, unforced, old(Unforced()));
      if 1 <= |src| {
        DecidedBy(preferred, schemeCode, src, nulls, level, force, old(AtTop()), old(overrideScheme),
                  estimationLevel == 0, events, history, |asked|, |old(history)|);
      }
    }

    lemma DecidedBy(request: SchemeCode, code: SchemeCode, src: seq<int>, nulls: NullMap, level: nat,
                    force: Option<SchemeCode>, top: bool, preset: Option<SchemeCode>, hot: bool, before: seq<Event>,
                    after: seq<Event>, from: nat, earlier: nat)
      requires 1 <= |src| && Covers(nulls, |src|) && before <= after && earlier <= from <= |before|
      requires Requested(request, src, nulls, level, force, top, preset, before, from)
      requires Honoured(request, code, src, nulls, level, hot, after, |before|)
      ensures Honoured(request, code, src, nulls, level, hot, after, earlier)
      ensures Decided(code, src, nulls, level, force, top, preset, hot, after, earlier)
    {
      hide Requested, Honoured;
      RequestedStays(request, src, nulls, level, force, top, preset, before, after, from, earlier);
      HonouredEarlier(request, code, src, nulls, level, hot, after, |before|, earlier);
    }

    lemma HonouredEarlier(request: SchemeCode, code: SchemeCode, src: seq<int>, nulls: NullMap, level: nat, hot: bool,
                          events: seq<Event>, from: nat, earlier: nat)
      requires 1 <= |src| && Covers(nulls, |src|) && earlier <= from
      requires Honoured(request, code, src, nulls, level, hot, events, from)
      ensures Honoured(request, code, src, nulls, level, hot, events, earlier)
    {
      NotedEarlier(events, from, earlier);
    }

    lemma FaithfulKeeps(code: SchemeCode, dest: Body, src: seq<int>, nulls: NullMap, settled: bool, unforced: bool)
      requires Input(src, nulls) && Faithful(code, dest, src, nulls, settled) && (unforced ==> settled)
      ensures Faithful(code, dest, src, nulls, unforced)
      ensures unforced && (code == ONE_VALUE ==> ConstantAtMin(src, nulls)) ==>
        Written(Column(code, dest), src, nulls, true) && Lossless(Column(code, dest), src, nulls)
      ensures code in {UNCOMPRESSED, BP, PFOR} ==> Lossless(Column(code, dest), src, nulls)
      ensures code == ONE_VALUE ==> (Lossless(Column(code, dest), src, nulls) <==> ConstantAtMin(src, nulls))
    {
      if code == ONE_VALUE {
        OneValueLossless(src, nulls, dest.value);
      }
      hide Written, Lossless, ConstantAtMin;
      if unforced && (code == ONE_VALUE ==> ConstantAtMin(src, nulls)) {
        WrittenLossless(Column(code, dest), src, nulls);
      }
      if code in {UNCOMPRESSED, BP, PFOR} {
        LeafLossless(Column(code, dest), src, nulls);
      }
    }

    /** What the route depends on can be told from the column. */
    lemma StatsDecide(stats: Stats, src: seq<int>, nulls: NullMap, level: nat)
      requires Input(src, nulls) && Describes(stats, src, nulls, 4)
      ensures 1 <= |src| ==> (TakesFor(stats, level) <==> !StaysUnbiased(src, level))
      ensures stats.nullCount == stats.tupleCount || stats.uniqueCount == 1 <==> OneValueOnly(src, nulls)
      ensures stats.uniqueCount == |Distinct(src)|
    {
      KeysAreDistinct(src, stats.distinct);
      if 1 <= |src| {
        assert forall m :: Least(src, m) <==> m == stats.min;
      }
    }

    /** At the top of a real compression, nothing live or one distinct value. */
    predicate TakesShortcut(stats: Stats)
      reads this
    {
      && estimationLevel == 0 && compressionLevel == 1
      && (stats.nullCount == stats.tupleCount || stats.uniqueCount == 1)
    }

    predicate TakesFor(stats: Stats, level: nat) {
      forEnabled && FOR in schemes && NeedsEightBits(stats.min) && 1 < level
    }

    /** The route: one-value shortcut, depth exhausted, frame of reference, try-all, forced, override, sampled. */
    method Prefer(src: seq<int>, nulls: NullMap, stats: Stats, level: nat, force: Option<SchemeCode>)
      returns (preferred: SchemeCode, ghost ratios: map<SchemeCode, real>, ghost sizes: map<SchemeCode, nat>)
      requires Configured() && Input(src, nulls) && Describes(stats, src, nulls, 4)
      requires force.Some? ==> force.value in schemes
      requires 1 <= compressionLevel && (|src| == 0 ==> 2 <= compressionLevel)
      modifies this
      ensures Restored() && preferred in schemes
      ensures var shortcut, spent, bias := old(TakesShortcut(stats)), level == 0 || |src| == 0, TakesFor(stats, level);
        && (shortcut ==> preferred == ONE_VALUE)
        && (!shortcut && spent ==> preferred == UNCOMPRESSED)
        && (!shortcut && !spent && bias ==> preferred == FOR)
        && (!shortcut && !spent && !bias && selection == SAMPLE && force.Some? ==> preferred == force.value)
        && (!shortcut && !spent && !bias && selection == SAMPLE && force.None? && old(overrideScheme).Some? ==>
              preferred == old(overrideScheme.value) && overrideScheme == None)
        && (!shortcut && !spent && !bias && (selection == TRY_ALL || (force.None? && old(overrideScheme).None?)) ==>
              Eligible(preferred, stats, level))
        && (!shortcut && !spent && !bias && selection == TRY_ALL ==>
              SmallestStream(preferred, ratios, sizes, src, nulls, level, history, |old(history)|))
        && (!shortcut && !spent && !bias && selection == SAMPLE && force.None? && old(overrideScheme).None? ==>
              BestEstimate(preferred, ratios, !old(SkipsOneValue()), src, nulls, level, history, |old(history)|))
      ensures Requested(preferred, src, nulls, level, force, !old(SkipsOneValue()), old(overrideScheme), history,
                        |old(history)|)
      ensures preferred != UNCOMPRESSED ==> 1 <= |src|
      ensures preferred != UNCOMPRESSED && preferred != ONE_VALUE ==> 1 <= level
      ensures preferred == ONE_VALUE && force != Some(ONE_VALUE) && old(overrideScheme) != Some(ONE_VALUE) ==>
        ConstantAtMin(src, nulls)
      ensures old(Cautious()) && 2 <= old(compressionLevel) && force != Some(ONE_VALUE) ==> preferred != ONE_VALUE
      ensures level == 0 && 2 <= old(compressionLevel) ==> preferred == UNCOMPRESSED
      decreases level, 5
    {
      hide ConstantAtMin, Describes, StaysUnbiased, OneValueOnly, SmallestStream, Estimates;
      FewDistinct(src, nulls, stats);
      StatsDecide(stats, src, nulls, level);
      ratios, sizes := map[], map[];
      if TakesShortcut(stats) {
        preferred := ONE_VALUE;
      } else if level == 0 || |src| == 0 {
        preferred := UNCOMPRESSED;
      } else if TakesFor(stats, level) {
        preferred := FOR;
      } else if selection == TRY_ALL {
        preferred, ratios, sizes := TryAll(src, nulls, stats, level);
      } else if force.Some? {
        preferred := force.value;
      } else if overrideScheme.Some? {
        preferred := overrideScheme.value;
        overrideScheme := None;
      } else {
        preferred, ratios := ChooseScheme(src, nulls, stats, level);
      }
    }

    /** Runs the preferred scheme; on the hot path a stream larger than the raw column is replaced by UNCOMPRESSED. */
    method Settle(choice: SchemeCode, src: seq<int>, nulls: NullMap, stats: Stats, level: nat)
      returns (dest: Body, afterSize: nat, schemeCode: SchemeCode)
      requires Configured() && Input(src, nulls) && Describes(stats, src, nulls, 4) && choice in schemes
      requires choice != UNCOMPRESSED ==> 1 <= |src|
      requires choice != UNCOMPRESSED && choice != ONE_VALUE ==> 1 <= level
      requires 1 <= compressionLevel
      modifies this
      ensures Restored() && (schemeCode == choice || (schemeCode == UNCOMPRESSED && estimationLevel == 0))
      ensures 1 <= |src| ==>
        Honoured(choice, schemeCode, src, nulls, level, estimationLevel == 0, history, |old(history)|)
      ensures estimationLevel == 0 ==> afterSize <= 4 * |src|
      ensures Faithful(schemeCode, dest, src, nulls, old(Unforced()))
      ensures afterSize == StreamSize(Column(schemeCode, dest))
      ensures SizeBounds(schemeCode, afterSize, src, nulls, level, estimationLevel == 0, old(Cautious()))
      decreases level, 4
    {
      hide Faithful, Lossless, ConstantAtMin, EncoderRuns, Describes, Noted, NestedBounds, Nested, TopOf,
        StreamSize;
      RawSize(stats, src, nulls);
      var preferred := choice;
      schemeCode := preferred;
      dest, afterSize := SchemeCompress(preferred, src, nulls, stats, level);
      ghost var events, size := history, afterSize;
      NotedLast(events, |old(history)|, Compressed(choice, src, nulls, level, size));
      if estimationLevel == 0 {
        if stats.totalSize < afterSize {
          preferred := UNCOMPRESSED;
          schemeCode := preferred;
          LeafBounds(UNCOMPRESSED, 4 * |src|, src, nulls, level, true, old(Cautious()));
          dest, afterSize := SchemeCompress(preferred, src, nulls, stats, level);
          RawFaithful(dest, src, nulls, old(Unforced()));
        }
        var estimate := ExpectedRatio(preferred, src, nulls, stats, level);
      }
      NotedStays(events, history, |old(history)|);
      assert Noted(history, |old(history)|, Compressed(choice, src, nulls, level, size));
    }

    lemma RawFaithful(dest: Body, src: seq<int>, nulls: NullMap, unforced: bool)
      requires Covers(nulls, |src|) && dest == Raw(src)
      ensures Faithful(UNCOMPRESSED, dest, src, nulls, unforced)
    {
    }

    /** ONE_VALUE is no candidate while estimating or below the top level. */
    predicate SkipsOneValue()
      reads this
    {
      estimationLevel != 0 || 1 < compressionLevel
    }

    /** The guards in front of the estimates: a scheme that fails its guard is estimated at zero. */
    predicate Eligible(code: SchemeCode, stats: Stats, level: nat) {
      match code
      case ONE_VALUE => stats.uniqueCount <= 1
      case FOR => false
      case DICT => 1 < level
      case RLE => runLengthThreshold <= stats.averageRunLength
      case FREQUENCY => stats.uniqueCount * 100 <= frequencyThresholdPct * stats.tupleCount
      case _ => true
    }

    /**
      * `chooseScheme`: of the registered schemes the one whose estimate, just made, is the best. UNCOMPRESSED is always
      * in the running, so the best estimate is at least 1 and belongs to a scheme that passed its guard.
      */
    method ChooseScheme(src: seq<int>, nulls: NullMap, stats: Stats, level: nat)
      returns (code: SchemeCode, ghost ratios: map<SchemeCode, real>)
      requires Configured() && Input(src, nulls) && Describes(stats, src, nulls, 4)
      requires 1 <= |src| && 1 <= level && 1 <= compressionLevel
      modifies this
      ensures Restored() && code in schemes
      ensures old(overrideScheme).Some? ==> code == old(overrideScheme.value) && overrideScheme == None
      ensures old(overrideScheme).None? ==>
        && Eligible(code, stats, level)
        && BestEstimate(code, ratios, !old(SkipsOneValue()), src, nulls, level, history, |old(history)|)
      decreases level, 4, 1
    {
      ratios := map[];
      assert Estimates(history, ratios, src, nulls, level, |history|);
      if overrideScheme.Some? {
        code := overrideScheme.value;
        overrideScheme := None;
        return;
      }
      var best, preferred := 0.0, None;
      var left := schemes;
      ghost var skipped := if SkipsOneValue() then {ONE_VALUE} else {};
      assert EstimatesSoFar(ratios, preferred, best, left, skipped, src, nulls, stats, level, |old(history)|);
      assert UNCOMPRESSED in schemes;
      hide EstimatesSoFar, Describes, Configured, Input;
      while left != {}
        invariant left <= schemes && Restored() && Configured() && overrideScheme == None
        invariant UNCOMPRESSED !in left ==> 1.0 <= best && preferred.Some?
        invariant EstimatesSoFar(ratios, preferred, best, left, skipped, src, nulls, stats, level, |old(history)|)
        decreases |left|
      {
        var scheme :| scheme in left;
        preferred, best, ratios :=
          RateNext(scheme, src, nulls, stats, level, |old(history)|, preferred, best, left, skipped, ratios);
        left := left - {scheme};
      }
      // neither exception can be raised
      assert 1.0 <= best && preferred.Some?;
      code := preferred.value;
      EstimatesDone(ratios, code, best, skipped, src, nulls, stats, level, |old(history)|);
    }

    ghost predicate EstimatesSoFar(ratios: map<SchemeCode, real>, preferred: Option<SchemeCode>, best: real,
                                   left: set<SchemeCode>, skipped: set<SchemeCode>, src: seq<int>, nulls: NullMap,
                                   stats: Stats, level: nat, from: nat)
      reads this
    {
      && ratios.Keys == schemes - left - skipped && Estimates(history, ratios, src, nulls, level, from)
      && Best(ratios, preferred, best) && 0.0 <= best
      && (preferred.Some? ==> preferred.value in schemes && Eligible(preferred.value, stats, level))
    }

    lemma EstimatesDone(ratios: map<SchemeCode, real>, code: SchemeCode, best: real, skipped: set<SchemeCode>,
                        src: seq<int>, nulls: NullMap, stats: Stats, level: nat, from: nat)
      requires EstimatesSoFar(ratios, Some(code), best, {}, skipped, src, nulls, stats, level, from)
      ensures code in schemes && Eligible(code, stats, level) && ratios.Keys == schemes - skipped
      ensures Estimates(history, ratios, src, nulls, level, from)
      ensures code in ratios && ratios[code] == best && forall s :: s in ratios ==> ratios[s] <= ratios[code]
    {
    }

    method RateNext(scheme: SchemeCode, src: seq<int>, nulls: NullMap, stats: Stats, level: nat, ghost from: nat,
                    preferred: Option<SchemeCode>, best: real, ghost left: set<SchemeCode>,
                    ghost skipped: set<SchemeCode>, ghost ratios: map<SchemeCode, real>)
      returns (better: Option<SchemeCode>, ratio: real, ghost more: map<SchemeCode, real>)
      requires Configured() && Input(src, nulls) && Describes(stats, src, nulls, 4) && scheme in left && left <= schemes
      requires 1 <= |src| && 1 <= level && 1 <= compressionLevel && from <= |history|
      requires skipped == if SkipsOneValue() then {ONE_VALUE} else {}
      requires EstimatesSoFar(ratios, preferred, best, left, skipped, src, nulls, stats, level, from)
      modifies this
      ensures Restored() && Configured()
      ensures EstimatesSoFar(more, better, ratio, left - {scheme}, skipped, src, nulls, stats, level, from)
      ensures (preferred.Some? && 1.0 <= best) || scheme == UNCOMPRESSED ==> better.Some? && 1.0 <= ratio
      decreases level, 4, 0
    {
      hide Estimates, Describes, Best, Eligible, Configured, Input;
      assert schemes - (left - {scheme}) - skipped == schemes - left - skipped + ({scheme} - skipped);
      better, ratio, more := preferred, best, ratios;
      if SkipsOneValue() && scheme == ONE_VALUE {
        return;
      }
      var estimate := RateScheme(scheme, src, nulls, stats, level, from, ratios);
      BetterStays(ratios, scheme, estimate, preferred, best);
      more := ratios[scheme := estimate];
      if estimate > best {
        better, ratio := Some(scheme), estimate;
      }
    }

    method RateScheme(scheme: SchemeCode, src: seq<int>, nulls: NullMap, stats: Stats, level: nat, ghost from: nat,
                      ghost ratios: map<SchemeCode, real>)
      returns (ratio: real)
      requires Configured() && Input(src, nulls) && Describes(stats, src, nulls, 4) && scheme in schemes
      requires 1 <= |src| && 1 <= level && 1 <= compressionLevel && from <= |history|
      requires Estimates(history, ratios, src, nulls, level, from)
      modifies this
      ensures Restored() && Configured() && Estimates(history, ratios[scheme := ratio], src, nulls, level, from)
      ensures (ratio > 0.0 ==> Eligible(scheme, stats, level)) && (scheme == UNCOMPRESSED ==> ratio == 1.0)
      decreases level, 3, 1
    {
      ghost var before := history;
      ratio := ExpectedRatio(scheme, src, nulls, stats, level);
      assert Trials(before, map[], src, nulls, level, from);
      RatioNoted(before, history, ratios, map[], src, nulls, level, from, scheme, ratio);
    }

    /**
      * The try-all route: every scheme whose estimate, just made, is positive is run on the column, and the smallest of
      * those streams wins.
      */
    method TryAll(src: seq<int>, nulls: NullMap, stats: Stats, level: nat)
      returns (code: SchemeCode, ghost ratios: map<SchemeCode, real>, ghost sizes: map<SchemeCode, nat>)
      requires Configured() && Input(src, nulls) && Describes(stats, src, nulls, 4)
      requires 1 <= |src| && 1 <= level && 1 <= compressionLevel
      modifies this
      ensures Restored() && code in schemes && Eligible(code, stats, level)
      ensures SmallestStream(code, ratios, sizes, src, nulls, level, history, |old(history)|)
      decreases level, 4, 1
    {
      ratios, sizes := map[], map[];
      var least, preferred := TWO_32 - 1, None;
      var left := schemes;
      assert TrialsSoFar(ratios, sizes, preferred, least, left, src, nulls, stats, level, |old(history)|);
      assert UNCOMPRESSED in schemes;
      hide TrialsSoFar, Describes, Configured, Input;
      while left != {}
        invariant left <= schemes && Restored() && Configured()
        invariant UNCOMPRESSED !in left ==> preferred.Some?
        invariant TrialsSoFar(ratios, sizes, preferred, least, left, src, nulls, stats, level, |old(history)|)
        decreases |left|
      {
        var scheme :| scheme in left;
        preferred, least, ratios, sizes :=
          TryNext(scheme, src, nulls, stats, level, |old(history)|, preferred, least, left, ratios, sizes);
        left := left - {scheme};
      }
      code := preferred.value;
      TrialsDone(ratios, sizes, code, least, src, nulls, stats, level, |old(history)|);
    }

    ghost predicate TrialsSoFar(ratios: map<SchemeCode, real>, sizes: map<SchemeCode, nat>,
                                preferred: Option<SchemeCode>,
                                least: int, left: set<SchemeCode>, src: seq<int>, nulls: NullMap, stats: Stats,
                                level: nat, from: nat)
      reads this
    {
      && ratios.Keys == schemes - left && PositiveTried(ratios, sizes) && Smallest(sizes, preferred, least)
      && Estimates(history, ratios, src, nulls, level, from) && Trials(history, sizes, src, nulls, level, from)
      && (preferred.Some? ==> preferred.value in schemes && Eligible(preferred.value, stats, level))
    }

    lemma TrialsDone(ratios: map<SchemeCode, real>, sizes: map<SchemeCode, nat>, code: SchemeCode, least: int,
                     src: seq<int>, nulls: NullMap, stats: Stats, level: nat, from: nat)
      requires TrialsSoFar(ratios, sizes, Some(code), least, {}, src, nulls, stats, level, from)
      ensures code in schemes && Eligible(code, stats, level) && ratios.Keys == schemes && PositiveTried(ratios, sizes)
      ensures Estimates(history, ratios, src, nulls, level, from) && Trials(history, sizes, src, nulls, level, from)
      ensures code in sizes && forall s :: s in sizes ==> sizes[code] <= sizes[s]
    {
    }

    lemma KeysApart(ratios: map<SchemeCode, real>, sizes: map<SchemeCode, nat>, left: set<SchemeCode>,
                    scheme: SchemeCode)
      requires ratios.Keys == schemes - left && PositiveTried(ratios, sizes) && scheme in left
      ensures scheme !in ratios && scheme !in sizes
    {
    }

    method TryNext(scheme: SchemeCode, src: seq<int>, nulls: NullMap, stats: Stats, level: nat, ghost from: nat,
                   preferred: Option<SchemeCode>, least: int, ghost left: set<SchemeCode>,
                   ghost ratios: map<SchemeCode, real>, ghost sizes: map<SchemeCode, nat>)
      returns (best: Option<SchemeCode>, size: int, ghost moreRatios: map<SchemeCode, real>,
               ghost moreSizes: map<SchemeCode, nat>)
      requires Configured() && Input(src, nulls) && Describes(stats, src, nulls, 4) && scheme in left && left <= schemes
      requires 1 <= |src| && 1 <= level && 1 <= compressionLevel && from <= |history|
      requires TrialsSoFar(ratios, sizes, preferred, least, left, src, nulls, stats, level, from)
      modifies this
      ensures Restored() && Configured()
      ensures TrialsSoFar(moreRatios, moreSizes, best, size, left - {scheme}, src, nulls, stats, level, from)
      ensures preferred.Some? || scheme == UNCOMPRESSED ==> best.Some?
      decreases level, 4, 0
    {
      hide Estimates, Trials, Describes, Smallest, Eligible, PositiveTried, Configured, Input;
      KeysApart(ratios, sizes, left, scheme);
      ghost var ratio;
      var tried, afterSize;
      tried, afterSize, moreRatios, moreSizes, ratio :=
        TryScheme(scheme, src, nulls, stats, level, from, ratios, sizes);
      SmallerStays(sizes, scheme, tried, afterSize, preferred, least);
      assert schemes - (left - {scheme}) == schemes - left + {scheme};
      best, size := preferred, least;
      if tried && afterSize < least {
        best, size := Some(scheme), afterSize;
      }
    }

    /** One scheme of the try-all route: it is run when its estimate is positive. */
    method TryScheme(scheme: SchemeCode, src: seq<int>, nulls: NullMap, stats: Stats, level: nat, ghost from: nat,
                     ghost ratios: map<SchemeCode, real>, ghost sizes: map<SchemeCode, nat>)
      returns (tried: bool, size: nat, ghost moreRatios: map<SchemeCode, real>, ghost moreSizes: map<SchemeCode, nat>,
               ghost ratio: real)
      requires Configured() && Input(src, nulls) && Describes(stats, src, nulls, 4) && scheme in schemes
      requires 1 <= |src| && 1 <= level && 1 <= compressionLevel && from <= |history|
      requires Estimates(history, ratios, src, nulls, level, from) && Trials(history, sizes, src, nulls, level, from)
      modifies this
      ensures Restored() && Configured() && (scheme == UNCOMPRESSED ==> size < TWO_32 - 1)
      ensures Estimates(history, moreRatios, src, nulls, level, from)
      ensures Trials(history, moreSizes, src, nulls, level, from)
      ensures tried ==> Eligible(scheme, stats, level)
      ensures scheme == UNCOMPRESSED ==> tried && size == 4 * |src|
      ensures moreRatios == ratios[scheme := ratio] && (tried <==> ratio > 0.0)
      ensures moreSizes == if tried then sizes[scheme := size] else sizes
      ensures PositiveTried(ratios, sizes) && scheme !in ratios ==> PositiveTried(moreRatios, moreSizes)
      decreases level, 3, 1
    {
      hide Noted, Estimates, Trials, Describes, SizeBounds, Faithful;
      ghost var before := history;
      var estimate := ExpectedRatio(scheme, src, nulls, stats, level);
      ratio := estimate;
      RatioNoted(before, history, ratios, sizes, src, nulls, level, from, scheme, ratio);
      moreRatios, moreSizes, tried, size := ratios[scheme := ratio], sizes, estimate > 0.0, 0;
      if tried {
        ghost var between := history;
        var stream;
        stream, size := SchemeCompress(scheme, src, nulls, stats, level);
        SizeNoted(between, history, moreRatios, sizes, src, nulls, level, from, scheme, size);
        moreSizes := sizes[scheme := size];
      }
    }

    // -------------------------------------------------------------- estimates

    /**
      * `scheme.expectedCompressionRatio`: zero behind a failed guard, measured on a compressed sample for RLE,
      * FREQUENCY and the packing schemes, a closed form for the dictionary while it fits 32 bits.
      */
    method ExpectedRatio(code: SchemeCode, src: seq<int>, nulls: NullMap, stats: Stats, level: nat)
      returns (ratio: real)
      requires Configured() && Input(src, nulls) && Describes(stats, src, nulls, 4) && code in schemes
      requires code != UNCOMPRESSED && code != ONE_VALUE ==> 1 <= |src| && 1 <= level
      requires 1 <= compressionLevel
      modifies this
      ensures Restored() && |old(history)| < |history|
      ensures history[|history| - 1] == Estimated(code, src, nulls, level, ratio)
      ensures !Eligible(code, stats, level) ==> ratio == 0.0
      ensures code == UNCOMPRESSED ==> ratio == 1.0
      ensures code == ONE_VALUE && Eligible(code, stats, level) ==> ratio == |src| as real
      ensures code == DICT && 1 < level ==> DictionaryRatio(src, ratio)
      ensures code in {RLE, FREQUENCY, BP, PFOR} && Eligible(code, stats, level) ==>
        Measured(code, src, nulls, level, ratio, old(estimationLevel) > 0, history, |old(history)|)
      decreases level, 3, 0
    {
      hide Describes, DictionaryRatio, Measured, Noted;
      StatsDecide(stats, src, nulls, level);
      StatsCount(stats, src, nulls);
      ratio := 0.0;
      match code {
        case UNCOMPRESSED => ratio := 1.0;
        case ONE_VALUE => ratio := if |stats.distinct| <= 1 then stats.tupleCount as real else 0.0;
        case FOR =>
        case DICT =>
          if 1 < level {
            ratio := EstimateDictionary(src, nulls, stats);
          }
        case RLE =>
          if runLengthThreshold <= stats.averageRunLength {
            ratio := Estimate(code, src, nulls, stats, level);
          }
        case FREQUENCY =>
          if stats.uniqueCount * 100 <= frequencyThresholdPct * stats.tupleCount {
            ratio := Estimate(code, src, nulls, stats, level);
          }
        case BP => ratio := Estimate(code, src, nulls, stats, level);
        case PFOR => ratio := Estimate(code, src, nulls, stats, level);
      }
      MeasuredStays(code, src, nulls, level, ratio, old(estimationLevel) > 0, history,
                    history + [Estimated(code, src, nulls, level, ratio)], |old(history)|);
      history := history + [Estimated(code, src, nulls, level, ratio)];
    }

    /** The closed form; beyond 32 bits the conversion of the sum is not defined. */
    method EstimateDictionary(ghost src: seq<int>, ghost nulls: NullMap, stats: Stats) returns (ratio: real)
      requires Input(src, nulls) && Describes(stats, src, nulls, 4)
      ensures DictionaryRatio(src, ratio)
    {
      hide DictionaryBytes;
      KeysAreDistinct(src, stats.distinct);
      RawSize(stats, src, nulls);
      var bytes := DictionaryBytes(stats.uniqueCount, stats.tupleCount);
      DictionaryTakes(stats.uniqueCount, stats.tupleCount);
      if bytes < TWO_32 {
        ratio := stats.totalSize as real / bytes as real;
      } else {
        ratio := *;
      }
    }

    ghost predicate DictionaryRatio(src: seq<int>, ratio: real) {
      var bytes := DictionaryBytes(|Distinct(src)|, |src|);
      0 < bytes < TWO_32 ==> ratio == (4 * |src|) as real / bytes as real
    }

    lemma DictionaryTakes(distinct: nat, rows: nat)
      ensures 10 <= DictionaryBytes(distinct, rows)
    {
    }

    /** The ratio is raw over compressed size of a sample of the column, or of all of it inside another estimate. */
    ghost predicate Measured(code: SchemeCode, src: seq<int>, nulls: NullMap, level: nat, ratio: real, nested: bool,
                             events: seq<Event>,
                             from: nat)
      requires Covers(nulls, |src|)
    {
      exists rows: seq<int>, flags: NullMap, size: nat :: SampleOf(rows, flags, src, nulls, nested) && size > 0
        && Noted(events, from, Compressed(code, rows, flags, level, size))
        && ratio == (4 * |rows|) as real / size as real
    }

    lemma MeasuredStays(code: SchemeCode, src: seq<int>, nulls: NullMap, level: nat, ratio: real, nested: bool,
                        before: seq<Event>, after: seq<Event>, from: nat)
      requires Covers(nulls, |src|) && before <= after
      ensures Measured(code, src, nulls, level, ratio, nested, before, from) ==>
        Measured(code, src, nulls, level, ratio, nested, after, from)
    {
      NotedStays(before, after, from);
      hide Noted, SampleOf;
    }

    /** The values together with their null flags. */
    ghost predicate SampleOf(rows: seq<int>, flags: NullMap, src: seq<int>, nulls: NullMap, nested: bool)
      requires Covers(nulls, |src|)
    {
      if nested then rows == src && flags == nulls
      else if |src| <= sampleCount * sampleSize then rows == src && flags == Some(LiveFlags(nulls, |src|))
      else exists starts: seq<nat> :: |starts| == sampleCount && Windows(starts, sampleSize, |src|)
             && rows == Cut(src, starts, sampleSize, sampleCount)
             && flags == Some(Cut(LiveFlags(nulls, |src|), starts, sampleSize, sampleCount))
    }

    /** `IntegerScheme::expectedCompressionRatio`: compress a sample, or everything when already estimating. */
    method Estimate(code: SchemeCode, src: seq<int>, nulls: NullMap, stats: Stats, level: nat) returns (ratio: real)
      requires Configured() && Input(src, nulls) && Describes(stats, src, nulls, 4) && code in schemes
      requires 1 <= |src| && 1 <= level && 1 <= compressionLevel
      modifies this
      ensures Restored() && Measured(code, src, nulls, level, ratio, old(estimationLevel) > 0, history, |old(history)|)
      decreases level, 2
    {
      hide Describes, Measured, SampleOf, Faithful, Windows, Cut, NestedBounds, StreamSize, Nested, TopOf, EncoderRuns;
      var rows, flags, sampled := src, nulls, stats;
      estimationLevel := estimationLevel + 1;
      if estimationLevel == 1 {
        var values, bitmap, starts := Samples(src, nulls, sampleCount, sampleSize);
        SampleIsInput(src, nulls, values, bitmap, starts);
        rows, flags := values, Some(bitmap);
        sampled := GenerateStats(rows, flags, 4);
      } else {
        AllRows(src, nulls);
      }
      var trial, after := SchemeCompress(code, rows, flags, sampled, level);
      estimationLevel := estimationLevel - 1;
      RawSize(sampled, rows, flags);
      ratio := sampled.totalSize as real / after as real;
      NotedLast(history, |old(history)|, Compressed(code, rows, flags, level, after));
      MeasuredBy(code, src, nulls, level, old(estimationLevel) > 0, history, |old(history)|, rows, flags, after);
    }

    lemma AllRows(src: seq<int>, nulls: NullMap)
      requires Covers(nulls, |src|)
      ensures SampleOf(src, nulls, src, nulls, true)
    {
    }

    lemma StatsCount(stats: Stats, src: seq<int>, nulls: NullMap)
      requires Input(src, nulls) && Describes(stats, src, nulls, 4)
      ensures stats.tupleCount == |src| && |stats.distinct| == stats.uniqueCount
    {
    }

    lemma RawSize(stats: Stats, src: seq<int>, nulls: NullMap)
      requires Input(src, nulls) && Describes(stats, src, nulls, 4)
      ensures stats.totalSize == 4 * |src|
    {
    }

    lemma MeasuredBy(code: SchemeCode, src: seq<int>, nulls: NullMap, level: nat, nested: bool, events: seq<Event>,
                     from: nat,
                     rows: seq<int>, flags: NullMap, size: nat)
      requires Covers(nulls, |src|) && SampleOf(rows, flags, src, nulls, nested) && 0 < size
      requires Noted(events, from, Compressed(code, rows, flags, level, size))
      ensures Measured(code, src, nulls, level, (4 * |rows|) as real / size as real, nested, events, from)
    {
    }

    lemma SampleIsInput(src: seq<int>, nulls: NullMap, values: seq<int>, bitmap: seq<bool>, starts: seq<nat>)
      requires Configured() && Input(src, nulls) && 1 <= |src| && |values| == |bitmap|
      requires |src| <= sampleCount * sampleSize ==> values == src && bitmap == LiveFlags(nulls, |src|)
      requires |src| > sampleCount * sampleSize ==>
        && |starts| == sampleCount && Windows(starts, sampleSize, |src|)
        && values == Cut(src, starts, sampleSize, sampleCount)
        && bitmap == Cut(LiveFlags(nulls, |src|), starts, sampleSize, sampleCount)
      ensures 1 <= |values| && Input(values, Some(bitmap)) && SampleOf(values, Some(bitmap), src, nulls, false)
    {
      if |src| > sampleCount * sampleSize {
        CutContent(src, starts, sampleSize, sampleCount);
        assert 1 <= sampleCount * sampleSize;
        forall i | 0 <= i < |values| ensures IsS32(values[i]) {
          assert values[i] in src;
        }
      }
    }

    // -------------------------------------------------------------- schemes

    /** `scheme.compress`, dispatched on the scheme code. */
    method SchemeCompress(code: SchemeCode, src: seq<int>, nulls: NullMap, stats: Stats, level: nat)
      returns (dest: Body, afterSize: nat)
      requires Configured() && Input(src, nulls) && Describes(stats, src, nulls, 4) && code in schemes
      requires code != UNCOMPRESSED ==> 1 <= |src|
      requires code != UNCOMPRESSED && code != ONE_VALUE ==> 1 <= level
      requires 1 <= compressionLevel
      modifies this
      ensures Restored() && |old(history)| < |history|
      ensures history[|history| - 1] == Compressed(code, src, nulls, level, afterSize)
      ensures Faithful(code, dest, src, nulls, old(Unforced()))
      ensures SizeBounds(code, afterSize, src, nulls, level, estimationLevel == 0, old(Cautious()))
      ensures code == UNCOMPRESSED ==> dest == Raw(src) && afterSize == 4 * |src|
      ensures code == ONE_VALUE ==> afterSize == 4
      ensures afterSize == StreamSize(Column(code, dest))
      ensures code == FREQUENCY ==> dest.Exceptions? && TopOf(dest.top, src, nulls)
      ensures code in {RLE, DICT, FREQUENCY, FOR} ==> Nested(code, src, nulls, level, history, |old(history)|)
      decreases level, 1
    {
      hide Written, Describes, EncoderRuns, Nested, Noted, TopOf, NestedBounds, StreamSize;
      LeafSizes(code, src, nulls, level, estimationLevel == 0, old(Cautious()));
      match code {
        case UNCOMPRESSED =>
          dest, afterSize := Raw(src), 4 * |src|;
          RawFaithful(dest, src, nulls, old(Unforced()));
        case ONE_VALUE =>
          dest := CompressOneValue(src, nulls, stats);
          afterSize := 4;
        case RLE => dest, afterSize := CompressRle(src, nulls, level);
        case DICT => dest, afterSize := CompressDictionary(src, nulls, stats, level);
        case FREQUENCY => dest, afterSize := CompressFrequency(src, nulls, stats, level);
        case FOR => dest, afterSize := CompressFor(src, nulls, stats, level);
        case BP =>
          dest := EncodePacked(src);
          afterSize := 8 + 4 * (|dest.words| + tailWords(dest.tail));
          LeafWritten(BP, dest, src, nulls);
        case PFOR =>
          dest, afterSize := Foreign(src), 8 + 4 * patchedWords(src) + 16;
          LeafWritten(PFOR, dest, src, nulls);
      }
      if code in {RLE, DICT, FREQUENCY, FOR} {
        NestedStays(code, src, nulls, level, history, history + [Compressed(code, src, nulls, level, afterSize)],
                    |old(history)|);
      }
      history := history + [Compressed(code, src, nulls, level, afterSize)];
    }

    lemma LeafSizes(code: SchemeCode, src: seq<int>, nulls: NullMap, level: nat, hot: bool, cautious: bool)
      requires Covers(nulls, |src|)
      ensures forall size: nat :: code !in {DICT, FOR, FREQUENCY} ==>
          NestedBounds(code, size, src, nulls, level, hot, cautious)
      ensures StreamSize(Column(UNCOMPRESSED, Raw(src))) == 4 * |src|
      ensures forall v :: StreamSize(Column(ONE_VALUE, Constant(v))) == 4
      ensures StreamSize(Column(PFOR, Foreign(src))) == 8 + 4 * patchedWords(src) + 16
      ensures var body := EncodePacked(src);
        StreamSize(Column(BP, body)) == 8 + 4 * (|body.words| + tailWords(body.tail))
    {
    }

    lemma LeafWritten(code: SchemeCode, dest: Body, src: seq<int>, nulls: NullMap)
      requires Covers(nulls, |src|)
      requires (code == BP && dest == EncodePacked(src)) || (code == PFOR && dest == Foreign(src))
      ensures forall exact: bool :: Written(Column(code, dest), src, nulls, exact)
    {
    }

    /** The first key in order is the smallest value. */
    method CompressOneValue(src: seq<int>, ghost nulls: NullMap, stats: Stats) returns (dest: Body)
      requires Input(src, nulls) && Describes(stats, src, nulls, 4) && 1 <= |src|
      ensures dest.Constant? && Written(Column(ONE_VALUE, dest), src, nulls, false)
      ensures ConstantAtMin(src, nulls) ==> Written(Column(ONE_VALUE, dest), src, nulls, true)
    {
      ghost var least := SmallestKey(stats.distinct.Keys);
      var first :| first in stats.distinct.Keys && forall k :: k in stats.distinct.Keys ==> first <= k;
      dest := Constant(first);
    }

    /** The counts stream's size is added twice, as the encoder does. */
    method CompressRle(src: seq<int>, nulls: NullMap, level: nat) returns (dest: Body, afterSize: nat)
      requires Configured() && Input(src, nulls) && 1 <= |src| && 1 <= level && 1 <= compressionLevel
      modifies this
      ensures Restored() && Faithful(RLE, dest, src, nulls, old(Unforced()))
      ensures SizeBounds(RLE, afterSize, src, nulls, level, estimationLevel == 0, old(Cautious()))
      ensures afterSize == StreamSize(Column(RLE, dest)) && Nested(RLE, src, nulls, level, history, |old(history)|)
      decreases level, 0
    {
      var values, counts := EncodeRuns(src, nulls);
      ValuesFromColumn(src, nulls, values, counts);
      hide Written, Lossless, RunsTo, Encoded, Noted, LeastBytes;
      var vs, cs;
      vs, cs, afterSize := CompressRuns(values, counts, level);
      dest := RunLengths(|values|, vs, cs);
      RunsWritten(Runs(values, counts), vs, cs, src, nulls, false);
      if old(Unforced()) {
        RunsWritten(Runs(values, counts), vs, cs, src, nulls, true);
      }
    }

    method CompressRuns(values: seq<int>, counts: seq<int>, level: nat)
      returns (vs: Column, cs: Column, afterSize: nat)
      requires Configured() && Input(values, None) && Input(counts, None) && 1 <= |values| == |counts|
      requires 1 <= level && 1 <= compressionLevel
      modifies this
      ensures Restored() && afterSize == 10 + StreamSize(vs) + 2 * StreamSize(cs)
      ensures Written(vs, values, None, false) && Written(cs, counts, None, false)
      ensures old(Unforced()) ==> Written(vs, values, None, true) && Written(cs, counts, None, true)
      ensures Noted(history, |old(history)|, Asked(values, None, level - 1, None))
      ensures Noted(history, |old(history)|, Asked(counts, None, level - 1, forcedCounts))
      ensures old(Cautious()) ==> 10 + 3 * LeastBytes(|values|) <= afterSize
      ensures estimationLevel == 0 ==> afterSize <= 10 + 12 * |values|
      ensures level == 1 ==> afterSize == 10 + 12 * |values|
      decreases level, 0, 0
    {
      hide Written, Noted, StreamSize, LeastBytes;
      var vsUsed, csUsed;
      vs, vsUsed := CompressNested(values, None, level, None);
      ghost var between := history;
      cs, csUsed := CompressNested(counts, None, level, forcedCounts);
      afterSize := 10 + vsUsed + csUsed + csUsed;
      NotedStays(between, history, |old(history)|);
      NotedEarlier(history, |between|, |old(history)|);
    }

    /** A nested stream: the picker, one level down. */
    method CompressNested(rows: seq<int>, nulls: NullMap, level: nat, force: Option<SchemeCode>)
      returns (child: Column, used: nat)
      requires Configured() && Input(rows, nulls) && (force.Some? ==> force.value in schemes)
      requires 1 <= level && 1 <= compressionLevel
      modifies this
      ensures Restored() && used == StreamSize(child)
      ensures Written(child, rows, nulls, false)
      ensures old(Unforced()) && force != Some(ONE_VALUE) ==>
        Written(child, rows, nulls, true) && Lossless(child, rows, nulls)
      ensures Noted(history, |old(history)|, Asked(rows, nulls, level - 1, force))
      ensures NestedUse(used, |rows|, level, estimationLevel == 0, old(Cautious()) && force != Some(ONE_VALUE))
      decreases level, 0, 0, 0
    {
      hide Written, Lossless, Decided, Noted, NestedBounds, Honoured, StaysUnbiased, LeastBytes, EncoderRuns,
        StreamSize;
      var body, code;
      body, used, code := Compress(rows, nulls, level - 1, force);
      child := Column(code, body);
    }

    /** At most raw on the hot path, and raw when no level is left. */
    ghost predicate NestedUse(used: nat, rows: nat, level: nat, hot: bool, cautious: bool) {
      && (hot ==> used <= 4 * rows) && (level == 1 ==> used == 4 * rows)
      && (cautious ==> LeastBytes(rows) <= used) && (1 <= rows ==> 4 <= used)
    }

    method CompressDictionary(src: seq<int>, nulls: NullMap, stats: Stats, level: nat)
      returns (dest: Body, afterSize: nat)
      requires Configured() && Input(src, nulls) && Describes(stats, src, nulls, 4) && DICT in schemes
      requires 1 <= |src| && 1 <= level && 1 <= compressionLevel
      modifies this
      ensures Restored() && Faithful(DICT, dest, src, nulls, old(Unforced()))
      ensures old(Unforced()) ==> Lossless(Column(DICT, dest), src, None)
      ensures SizeBounds(DICT, afterSize, src, nulls, level, estimationLevel == 0, old(Cautious()))
      ensures afterSize == StreamSize(Column(DICT, dest)) && Nested(DICT, src, nulls, level, history, |old(history)|)
      decreases level, 0
    {
      hide Written, Lossless, Describes, Coded, Noted, SizeBounds, Distinct, NestedUse, StreamSize;
      var dict, codes := DictionaryStreams(src, nulls, stats);
      var cs, used := CompressNested(codes, None, level, Some(BP));
      dest := Dictionary(dict, cs);
      afterSize := 5 + 4 * |dict| + used;
      DictBounds(src, nulls, used, level, estimationLevel == 0, old(Cautious()));
      DictSize(dict, codes, cs, src, nulls, level, history, |old(history)|);
      DictionaryWritten(dict, codes, cs, src, nulls, false);
      if old(Unforced()) {
        DictionaryWritten(dict, codes, cs, src, nulls, true);
        DictionaryKeepsAll(Column(DICT, dest), src, nulls);
      }
    }

    lemma DictSize(dict: seq<int>, codes: seq<int>, child: Column, src: seq<int>, nulls: NullMap, level: nat,
                   events: seq<Event>, from: nat)
      requires Covers(nulls, |src|) && 1 <= |src| && 1 <= level && Coded(dict, codes, src)
      requires Noted(events, from, Asked(codes, None, level - 1, Some(BP)))
      ensures Nested(DICT, src, nulls, level, events, from)
      ensures StreamSize(Column(DICT, Dictionary(dict, child))) == 5 + 4 * |dict| + StreamSize(child)
    {
    }

    lemma DictBounds(src: seq<int>, nulls: NullMap, used: nat, level: nat, hot: bool, cautious: bool)
      requires Covers(nulls, |src|) && 1 <= |src| && NestedUse(used, |src|, level, hot, cautious)
      ensures SizeBounds(DICT, 5 + 4 * |Distinct(src)| + used, src, nulls, level, hot, cautious)
    {
      hide Distinct;
    }

    method DictionaryStreams(src: seq<int>, ghost nulls: NullMap, stats: Stats)
      returns (dict: seq<int>, codes: seq<int>)
      requires Input(src, nulls) && Describes(stats, src, nulls, 4) && 1 <= |src|
      ensures Coded(dict, codes, src) && Input(codes, None) && |codes| == |src|
      ensures 1 <= |dict| == |Distinct(src)|
    {
      dict, codes := EncodeDictionary(src, stats.distinct);
      KeysAreDistinct(src, stats.distinct);
      DistinctBound(src, stats.distinct.Keys);
      CodesAreS32(dict, codes);
      assert CodesInRange(codes, dict) && 0 <= codes[0] < |dict|;
    }

    /** The value that is left out of the exceptions. */
    method PickTop(src: seq<int>, nulls: NullMap, stats: Stats) returns (top: int)
      requires Input(src, nulls) && Describes(stats, src, nulls, 4) && 1 <= |src|
      ensures TopOf(top, src, nulls) && IsS32(top)
    {
      top := 0;
      if stats.nullCount * 100 < 90 * stats.tupleCount {
        assert src[0] in stats.distinct;
        top := TopValue(stats.distinct);
        TopIsMostFrequent(top, src, stats.distinct);
      }
    }

    lemma FrequencyBounds(src: seq<int>, nulls: NullMap, top: int, used: nat, level: nat, hot: bool, cautious: bool)
      requires Covers(nulls, |src|) && TopOf(top, src, nulls)
      requires NestedUse(used, |ExceptionRows(src, nulls, top)|, level, hot, cautious)
      ensures SizeBounds(FREQUENCY, 9 + bitmapBytes(ExceptionRows(src, nulls, top)) + used, src, nulls, level, hot,
                         cautious)
    {
      forall other | TopOf(other, src, nulls) ensures other == top {
        TopUnique(top, other, src, nulls);
      }
    }

    lemma FrequencySize(top: int, rows: set<nat>, ex: seq<int>, child: Column, src: seq<int>, nulls: NullMap,
                        level: nat, events: seq<Event>, from: nat)
      requires Covers(nulls, |src|) && 1 <= |src| && 1 <= level && TopOf(top, src, nulls)
      requires ExceptionsTo(src, nulls, top, rows, ex, |src|)
      requires Noted(events, from, Asked(ex, None, level - 1, None))
      ensures Nested(FREQUENCY, src, nulls, level, events, from)
      ensures StreamSize(Column(FREQUENCY, Exceptions(top, rows, child))) ==
        9 + bitmapBytes(rows) + StreamSize(child)
    {
    }

    method CompressFrequency(src: seq<int>, nulls: NullMap, stats: Stats, level: nat)
      returns (dest: Body, afterSize: nat)
      requires Configured() && Input(src, nulls) && Describes(stats, src, nulls, 4)
      requires 1 <= |src| && 1 <= level && 1 <= compressionLevel
      modifies this
      ensures dest.Exceptions? && TopOf(dest.top, src, nulls)
      ensures Restored() && Faithful(FREQUENCY, dest, src, nulls, old(Unforced()))
      ensures SizeBounds(FREQUENCY, afterSize, src, nulls, level, estimationLevel == 0, old(Cautious()))
      ensures afterSize == StreamSize(Column(FREQUENCY, dest))
      ensures Nested(FREQUENCY, src, nulls, level, history, |old(history)|)
      decreases level, 0
    {
      hide Written, Lossless, Describes, ExceptionsTo, Noted, TopOf, SizeBounds, ExceptionRows, NestedUse, StreamSize;
      var top := PickTop(src, nulls, stats);
      var rows, ex := EncodeFrequency(src, nulls, top);
      ExceptionsFromColumn(src, nulls, top, rows, ex);
      ExceptionRowsAre(src, nulls, top, rows, ex);
      var es, used := CompressNested(ex, None, level, None);
      dest := Exceptions(top, rows, es);
      afterSize := 9 + bitmapBytes(rows) + used;
      FrequencyBounds(src, nulls, top, used, level, estimationLevel == 0, old(Cautious()));
      FrequencySize(top, rows, ex, es, src, nulls, level, history, |old(history)|);
      ExceptionsWritten(top, rows, ex, es, src, nulls, false);
      if old(Unforced()) {
        ExceptionsWritten(top, rows, ex, es, src, nulls, true);
      }
    }

    lemma ForBounds(src: seq<int>, nulls: NullMap, used: nat, level: nat, hot: bool, cautious: bool)
      requires Covers(nulls, |src|) && 1 <= |src| && NestedUse(used, |src|, level, hot, cautious)
      ensures SizeBounds(FOR, 5 + used, src, nulls, level, hot, cautious)
    {
    }

    /** The smallest column bias leaves non-negative differences; the child still sees the null map. */
    method CompressFor(src: seq<int>, nulls: NullMap, stats: Stats, level: nat) returns (dest: Body, afterSize: nat)
      requires Configured() && Input(src, nulls) && Describes(stats, src, nulls, 4)
      requires 1 <= |src| && 1 <= level && 1 <= compressionLevel
      modifies this
      ensures Restored() && Faithful(FOR, dest, src, nulls, old(Unforced()))
      ensures dest.Biased? && Least(src, dest.bias)
      ensures SizeBounds(FOR, afterSize, src, nulls, level, estimationLevel == 0, old(Cautious()))
      ensures afterSize == StreamSize(Column(FOR, dest)) && Nested(FOR, src, nulls, level, history, |old(history)|)
      decreases level, 0
    {
      hide Noted, Written, Lossless, Describes, Least, Nested, StreamSize, SizeBounds, NestedUse, AllS32, Biases;
      BiasedIsInput(src, nulls, stats);
      var biased := EncodeFor(src, nulls, stats.min);
      var rest, used := CompressNested(biased, nulls, level, None);
      dest := Biased(stats.min, rest);
      afterSize := 5 + used;
      ForBounds(src, nulls, used, level, estimationLevel == 0, old(Cautious()));
      ForSize(stats.min, rest, src, nulls, level, history, |old(history)|);
      ForWritten(stats.min, rest, src, nulls, false);
      if old(Unforced()) {
        ForWritten(stats.min, rest, src, nulls, true);
      }
    }

    lemma BiasedIsInput(src: seq<int>, nulls: NullMap, stats: Stats)
      requires Input(src, nulls) && Describes(stats, src, nulls, 4) && 1 <= |src|
      ensures Least(src, stats.min) && Input(Biases(src, nulls, stats.min), nulls)
    {
    }

    lemma ForSize(min: int, child: Column, src: seq<int>, nulls: NullMap, level: nat, events: seq<Event>, from: nat)
      requires Covers(nulls, |src|) && 1 <= |src| && 1 <= level && Least(src, min)
      requires Noted(events, from, Asked(Biases(src, nulls, min), nulls, level - 1, None))
      ensures Nested(FOR, src, nulls, level, events, from)
      ensures StreamSize(Column(FOR, Biased(min, child))) == 5 + StreamSize(child)
    {
    }
  }
}
