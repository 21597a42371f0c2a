/** What the integer encoders write at any depth, when nothing is lost, and what a ONE_VALUE stream below them costs. */
module WrittenColumns {
  import opened Words
  import opened RunLength
  import opened Bitmap
  import opened Cascade
  import opened NumberStats
  import opened IntegerSchemes

  /** The codes stream of a column under an ascending dictionary of its values. */
  ghost predicate Coded(dict: seq<int>, codes: seq<int>, src: seq<int>) {
    && StrictlyAscending(dict) && (forall k :: k in dict ==> k in src) && |codes| == |src| && AllS32(codes)
    && CodesInRange(codes, dict) && Lookup(dict, codes) == src
  }

  /**
    * What an encoder leaves for `src`, layer by layer, whatever was requested. With `exact`, every ONE_VALUE stream in
    * the tree stands for a column that is constant at its minimum.
    */
  ghost predicate Written(c: Column, src: seq<int>, nulls: NullMap, exact: bool)
    requires Covers(nulls, |src|)
    decreases c
  {
    Tagged(c) &&
    match c.body
    case Raw(values) => values == src
    case Constant(value) => Least(src, value) && (exact ==> ConstantAtMin(src, nulls))
    case Dictionary(dict, codes) => exists cs :: Coded(dict, cs, src) && Written(codes, cs, None, exact)
    case RunLengths(runs, vs, cs) =>
      && 1 <= |src| && runs == |RunsTo(src, nulls, |src|).values|
      && Written(vs, RunsTo(src, nulls, |src|).values, None, exact)
      && Written(cs, RunsTo(src, nulls, |src|).counts, None, exact)
    case Exceptions(top, rows, ex) =>
      && TopOf(top, src, nulls) && IsS32(top)
      && exists es :: ExceptionsTo(src, nulls, top, rows, es, |src|) && Written(ex, es, None, exact)
    case Biased(bias, rest) => Least(src, bias) && Written(rest, Biases(src, nulls, bias), nulls, exact)
    case Packed(_, _) => c.body == EncodePacked(src)
    case Foreign(payload) => payload == src
  }

  /** What the encoders ask of a column. */
  ghost predicate Legal(src: seq<int>, nulls: NullMap) { Covers(nulls, |src|) && AllS32(src) && |src| < 0x8000_0000 }

  /** The run lists of a column: see `EncodeRuns`. */
  lemma RunLists(src: seq<int>, nulls: NullMap)
    requires 1 <= |src| && Legal(src, nulls)
    ensures var runs := RunsTo(src, nulls, |src|);
      && Encoded(runs.values, runs.counts, src, nulls) && Total(runs.counts) == |src| && Positive(runs.counts)
      && Legal(runs.values, None) && Legal(runs.counts, None) && |runs.values| == |runs.counts|
  {
    var runs := RunsTo(src, nulls, |src|);
    RunsEncode(src, nulls);
    ValuesFromColumn(src, nulls, runs.values, runs.counts);
  }

  lemma DictionaryWritten(dict: seq<int>, codes: seq<int>, child: Column, src: seq<int>, nulls: NullMap, exact: bool)
    requires Covers(nulls, |src|) && Coded(dict, codes, src) && Written(child, codes, None, exact)
    ensures Written(Column(DICT, Dictionary(dict, child)), src, nulls, exact)
  {
  }

  lemma ExceptionsWritten(top: int, rows: set<nat>, ex: seq<int>, child: Column, src: seq<int>, nulls: NullMap,
                          exact: bool)
    requires Covers(nulls, |src|) && ExceptionsTo(src, nulls, top, rows, ex, |src|) && Written(child, ex, None, exact)
    requires IsS32(top) && TopOf(top, src, nulls)
    ensures Written(Column(FREQUENCY, Exceptions(top, rows, child)), src, nulls, exact)
  {
  }

  lemma ForWritten(bias: int, child: Column, src: seq<int>, nulls: NullMap, exact: bool)
    requires Covers(nulls, |src|) && Least(src, bias) && Written(child, Biases(src, nulls, bias), nulls, exact)
    ensures Written(Column(FOR, Biased(bias, child)), src, nulls, exact)
  {
  }

  lemma RunsWritten(runs: Runs<int>, vs: Column, cs: Column, src: seq<int>, nulls: NullMap, exact: bool)
    requires 1 <= |src| && Covers(nulls, |src|) && runs == RunsTo(src, nulls, |src|)
    requires Written(vs, runs.values, None, exact) && Written(cs, runs.counts, None, exact)
    ensures Written(Column(RLE, RunLengths(|runs.values|, vs, cs)), src, nulls, exact)
  {
  }

  // ---------------------------------------------------------------- nothing lost

  /** Without a lossy ONE_VALUE anywhere in the tree nothing is lost, at any depth. */
  lemma {:induction false} WrittenLossless(c: Column, src: seq<int>, nulls: NullMap)
    requires Legal(src, nulls) && Written(c, src, nulls, true)
    ensures Lossless(c, src, nulls)
    decreases c
  {
    hide Lossless, WellFormed, Decode;
    match c.body
    case Raw(_) => RawLossless(src, nulls);
    case Constant(value) => OneValueLossless(src, nulls, value);
    case Dictionary(_, codes) =>
      var cs := CodesStream(c, src, nulls, true);
      WrittenLossless(codes, cs, None);
      DictionaryLossless(c.body.dict, cs, codes, src, nulls);
    case RunLengths(_, _, _) =>
      RunLists(src, nulls);
      RunStreams(c, src, nulls, true);
      hide Written, Encoded, RunsTo, Legal;
      var runs := RunsTo(src, nulls, |src|);
      WrittenLossless(c.body.runValues, runs.values, None);
      WrittenLossless(c.body.runCounts, runs.counts, None);
      RunLengthLossless(runs.values, runs.counts, c.body.runValues, c.body.runCounts, src, nulls);
    case Exceptions(_, _, _) =>
      var es := ExceptionStream(c, src, nulls, true);
      WrittenLossless(c.body.exceptions, es, None);
      FrequencyLossless(c.body.top, c.body.rows, es, c.body.exceptions, src, nulls);
    case Biased(bias, rest) =>
      WrittenLossless(rest, Biases(src, nulls, bias), nulls);
      ForLossless(src, nulls, bias, rest);
    case Packed(_, _) => PackedLossless(src, nulls);
    case Foreign(_) => ForeignLossless(src, nulls);
  }

  /** Streams without nested streams lose nothing, whatever was requested. */
  lemma LeafLossless(c: Column, src: seq<int>, nulls: NullMap)
    requires Legal(src, nulls) && Written(c, src, nulls, false) && c.scheme in {UNCOMPRESSED, BP, PFOR}
    ensures Lossless(c, src, nulls)
  {
    WrittenLossless(c, src, nulls);
  }

  lemma CodesStream(c: Column, src: seq<int>, nulls: NullMap, exact: bool) returns (cs: seq<int>)
    requires Legal(src, nulls) && Written(c, src, nulls, exact) && c.body.Dictionary?
    ensures Coded(c.body.dict, cs, src) && Legal(cs, None) && Written(c.body.codes, cs, None, exact)
  {
    cs :| Coded(c.body.dict, cs, src) && Written(c.body.codes, cs, None, exact);
  }

  lemma RunStreams(c: Column, src: seq<int>, nulls: NullMap, exact: bool)
    requires Legal(src, nulls) && Written(c, src, nulls, exact) && c.body.RunLengths?
    ensures c.scheme == RLE && 1 <= |src|
    ensures var runs := RunsTo(src, nulls, |src|);
      && c.body.runs == |runs.values| && Written(c.body.runValues, runs.values, None, exact)
      && Written(c.body.runCounts, runs.counts, None, exact)
  {
  }

  lemma ExceptionStream(c: Column, src: seq<int>, nulls: NullMap, exact: bool) returns (es: seq<int>)
    requires Legal(src, nulls) && Written(c, src, nulls, exact) && c.body.Exceptions?
    ensures c.scheme == FREQUENCY && ExceptionsTo(src, nulls, c.body.top, c.body.rows, es, |src|)
    ensures Legal(es, None) && Written(c.body.exceptions, es, None, exact)
  {
    es :| ExceptionsTo(src, nulls, c.body.top, c.body.rows, es, |src|) && Written(c.body.exceptions, es, None, exact);
    ExceptionsFromColumn(src, nulls, c.body.top, c.body.rows, es);
  }

  /** A dictionary keeps null rows, too. */
  lemma DictionaryKeepsAll(c: Column, src: seq<int>, nulls: NullMap)
    requires Legal(src, nulls) && Written(c, src, nulls, true) && c.scheme == DICT
    ensures Lossless(c, src, None)
  {
    var cs := CodesStream(c, src, nulls, true);
    WrittenLossless(c.body.codes, cs, None);
    DictionaryLossless(c.body.dict, cs, c.body.codes, src, None);
  }

  /** A written run-length stream decodes to positive counts. */
  lemma NoEmptyRuns(c: Column, src: seq<int>, nulls: NullMap)
    requires Legal(src, nulls) && Written(c, src, nulls, true)
    ensures NoEmptyRun(c, |src|)
  {
    if c.scheme == RLE {
      WrittenLossless(c, src, nulls);
      RunLists(src, nulls);
      RunStreams(c, src, nulls, true);
      hide Written, Encoded, RunsTo, Legal;
      var runs := RunsTo(src, nulls, |src|);
      WrittenLossless(c.body.runCounts, runs.counts, None);
      LosslessExact(c.body.runCounts, runs.counts);
    }
  }

  ghost predicate NoEmptyRun(c: Column, n: nat) {
    c.scheme == RLE ==> WellFormed(c, n) && Positive(Decode(c.body.runCounts, c.body.runs, false))
  }

  // ---------------------------------------------------------------- exactly when nothing is lost

  /** ONE_VALUE is never written for an empty stream. */
  lemma {:induction false} EmptyExact(c: Column, nulls: NullMap)
    requires Covers(nulls, 0) && Written(c, [], nulls, false)
    ensures Written(c, [], nulls, true)
    decreases c
  {
    match c.body
    case Constant(value) => assert !Least([], value);
    case Dictionary(dict, codes) =>
      var cs :| Coded(dict, cs, []) && Written(codes, cs, None, false);
      assert cs == [];
      EmptyExact(codes, None);
    case Exceptions(top, rows, ex) =>
      var es :| ExceptionsTo([], nulls, top, rows, es, 0) && Written(ex, es, None, false);
      assert es == [];
      EmptyExact(ex, None);
    case _ =>
  }

  /** Whatever a written stream decodes to, it is made of 32-bit values. */
  lemma {:induction false} DecodesS32(c: Column, src: seq<int>, nulls: NullMap, allNull: bool)
    requires Legal(src, nulls) && Written(c, src, nulls, false) && WellFormed(c, |src|)
    ensures AllS32(Decode(c, |src|, allNull))
    decreases c
  {
    match c.body
    case Dictionary(dict, codes) =>
      var cs := CodesStream(c, src, nulls, false);
      LookupS32(dict, Decode(codes, |src|, false), src);
    case RunLengths(_, _, _) => RunsDecodeS32(c, src, nulls);
    case Exceptions(top, rows, ex) =>
      var es := ExceptionStream(c, src, nulls, false);
      AscendingTotal(rows, |src|);
      if |rows| > 0 {
        DecodesS32(ex, es, None, false);
      }
      OverlayS32(top, rows, if |rows| > 0 then Decode(ex, |rows|, false) else [], |src|);
    case Biased(bias, rest) => DecodesS32(rest, Biases(src, nulls, bias), nulls, true);
    case Packed(_, _) =>
      PackedLossless(src, None);
      LosslessExact(c, src);
    case _ =>
  }

  lemma LookupS32(dict: seq<int>, codes: seq<int>, src: seq<int>)
    requires CodesInRange(codes, dict) && AllS32(src) && forall k :: k in dict ==> k in src
    ensures AllS32(Lookup(dict, codes))
  {
    forall i | 0 <= i < |codes| ensures IsS32(dict[codes[i]]) {
      assert dict[codes[i]] in dict;
    }
  }

  lemma OverlayS32(top: int, rows: set<nat>, ex: seq<int>, n: nat)
    requires Within(rows, n) && |ex| == |rows| && IsS32(top) && AllS32(ex)
    ensures AllS32(Overlay(top, rows, ex, n))
  {
    AscendingTotal(rows, n);
    forall i | 0 <= i < n ensures IsS32(Overlay(top, rows, ex, n)[i]) {
      if i in rows {
        RankIsPosition(rows, n, i);
      }
    }
  }

  lemma RunsDecodeS32(c: Column, src: seq<int>, nulls: NullMap)
    requires Legal(src, nulls) && Written(c, src, nulls, false) && WellFormed(c, |src|) && c.body.RunLengths?
    ensures AllS32(Decode(c, |src|, false)) && AllS32(Decode(c, |src|, true))
    decreases c, 0
  {
    RunLists(src, nulls);
    RunStreams(c, src, nulls, false);
    var runs := RunsTo(src, nulls, |src|);
    var vs, cs := Decode(c.body.runValues, c.body.runs, false), Decode(c.body.runCounts, c.body.runs, false);
    DecodesS32(c.body.runValues, runs.values, None, false);
    ExpandLength(vs, cs, |cs|);
    forall i: nat | i < |src| ensures IsS32(Expand(vs, cs)[i]) {
      var r := OwnerOf(cs, |cs|, i);
      ExpandAt(vs, cs, |cs|, r, i);
    }
  }

  /** A non-empty column without nulls is lossless when it decodes to itself. */
  lemma DecodedLossless(c: Column, src: seq<int>)
    requires 1 <= |src| && WellFormed(c, |src|) && Decode(c, |src|, false) == src
    ensures Lossless(c, src, None)
  {
    assert !NoLiveRow(None, |src|) by {
      assert Live(None, 0);
    }
  }

  /**
    * A column without nulls, whatever was requested at whatever depth: it loses nothing if and only if every ONE_VALUE
    * stream in its tree stands for a constant stream. No layer can make up for the loss of a layer below.
    */
  lemma {:induction false} WrittenExactly(c: Column, src: seq<int>)
    requires Legal(src, None) && Written(c, src, None, false)
    ensures Lossless(c, src, None) <==> Written(c, src, None, true)
    decreases c
  {
    if Written(c, src, None, true) {
      WrittenLossless(c, src, None);
    }
    if src == [] {
      EmptyExact(c, None);
    } else if Lossless(c, src, None) {
      LosslessExact(c, src);
      match c.body {
        case Constant(value) => OneValueLossless(src, None, value);
        case Dictionary(_, _) => DictionaryKept(c, src);
        case RunLengths(_, _, _) => RunsKept(c, src);
        case Exceptions(_, _, _) => ExceptionsKept(c, src);
        case Biased(_, _) => BiasKept(c, src);
        case _ =>
      }
    }
  }

  lemma DictionaryKept(c: Column, src: seq<int>)
    requires Legal(src, None) && Written(c, src, None, false) && c.body.Dictionary? && 1 <= |src|
    requires WellFormed(c, |src|) && Decode(c, |src|, false) == src
    ensures Written(c, src, None, true)
    decreases c, 0
  {
    var cs := CodesStream(c, src, None, false);
    var got := Decode(c.body.codes, |src|, false);
    forall i | 0 <= i < |src| ensures got[i] == cs[i] {
      assert c.body.dict[got[i]] == src[i] == c.body.dict[cs[i]];
    }
    DecodedLossless(c.body.codes, cs);
    WrittenExactly(c.body.codes, cs);
    DictionaryWritten(c.body.dict, cs, c.body.codes, src, None, true);
  }

  lemma RunsKept(c: Column, src: seq<int>)
    requires Legal(src, None) && Written(c, src, None, false) && c.body.RunLengths? && 1 <= |src|
    requires WellFormed(c, |src|) && Decode(c, |src|, false) == src
    ensures Written(c, src, None, true)
    decreases c, 0
  {
    RunLists(src, None);
    RunStreams(c, src, None, false);
    var runs := RunsTo(src, None, |src|);
    var vs, cs := Decode(c.body.runValues, c.body.runs, false), Decode(c.body.runCounts, c.body.runs, false);
    assert Expand(runs.values, runs.counts) == src;
    RunListUnique(runs.values, runs.counts, vs, cs);
    DecodedLossless(c.body.runValues, runs.values);
    DecodedLossless(c.body.runCounts, runs.counts);
    WrittenExactly(c.body.runValues, runs.values);
    WrittenExactly(c.body.runCounts, runs.counts);
    RunsWritten(runs, c.body.runValues, c.body.runCounts, src, None, true);
  }

  lemma ExceptionsKept(c: Column, src: seq<int>)
    requires Legal(src, None) && Written(c, src, None, false) && c.body.Exceptions? && 1 <= |src|
    requires WellFormed(c, |src|) && Decode(c, |src|, false) == src
    ensures Written(c, src, None, true)
    decreases c, 0
  {
    var top, rows, ex := c.body.top, c.body.rows, c.body.exceptions;
    var es := ExceptionStream(c, src, None, false);
    AscendingTotal(rows, |src|);
    if |rows| == 0 {
      EmptyExact(ex, None);
    } else {
      ExceptionsDecoded(c, src, es);
      DecodedLossless(ex, es);
      WrittenExactly(ex, es);
    }
    ExceptionsWritten(top, rows, es, ex, src, None, true);
  }

  lemma ExceptionsDecoded(c: Column, src: seq<int>, es: seq<int>)
    requires c.scheme == FREQUENCY && c.body.Exceptions? && |c.body.rows| > 0
    requires ExceptionsTo(src, None, c.body.top, c.body.rows, es, |src|)
    requires WellFormed(c, |src|) && Decode(c, |src|, false) == src
    ensures |es| == |c.body.rows| && Decode(c.body.exceptions, |es|, false) == es
  {
    AscendingTotal(c.body.rows, |src|);
    var got := Decode(c.body.exceptions, |c.body.rows|, false);
    assert Overlay(c.body.top, c.body.rows, got, |src|) == src;
    hide Decode, WellFormed;
    OverlayReads(c.body.top, c.body.rows, got, src, es);
  }

  /** The exceptions can be read off the column they were laid over. */
  lemma OverlayReads(top: int, rows: set<nat>, got: seq<int>, src: seq<int>, es: seq<int>)
    requires Within(rows, |src|) && |got| == |rows| && Overlay(top, rows, got, |src|) == src
    requires ExceptionsTo(src, None, top, rows, es, |src|)
    ensures got == es
  {
    AscendingTotal(rows, |src|);
    var order := Ascending(rows, |src|);
    forall k | 0 <= k < |es| ensures got[k] == es[k] {
      PositionIsRank(rows, |src|, k);
      OverlayAt(top, rows, got, |src|, order[k]);
    }
  }

  lemma OverlayAt(top: int, rows: set<nat>, got: seq<int>, n: nat, row: nat)
    requires Within(rows, n) && |got| == |rows| && row in rows
    ensures 0 <= Rank(rows, row) - 1 < |got| && Overlay(top, rows, got, n)[row] == got[Rank(rows, row) - 1]
  {
    AscendingTotal(rows, n);
    RankIsPosition(rows, n, row);
  }

  lemma BiasKept(c: Column, src: seq<int>)
    requires Legal(src, None) && Written(c, src, None, false) && c.body.Biased? && 1 <= |src|
    requires WellFormed(c, |src|) && Decode(c, |src|, false) == src
    ensures Written(c, src, None, true)
    decreases c, 0
  {
    var rest, biased := c.body.rest, Biases(src, None, c.body.bias);
    DecodesS32(rest, biased, None, false);
    AddBiasUndone(Decode(rest, |src|, false), src, c.body.bias);
    hide Decode, WellFormed, Lossless;
    DecodedLossless(rest, biased);
    WrittenExactly(rest, biased);
  }

  lemma AddBiasUndone(decoded: seq<int>, src: seq<int>, bias: int)
    requires AllS32(decoded) && AddBias(decoded, bias) == src
    ensures decoded == Biases(src, None, bias)
  {
    forall i | 0 <= i < |src| ensures decoded[i] == S32(src[i] - bias) {
      BiasUndone(decoded[i], src[i], bias);
    }
  }

  lemma BiasUndone(decoded: int, value: int, bias: int)
    requires IsS32(decoded) && S32(decoded + bias) == value
    ensures decoded == S32(value - bias)
  {
    BiasRoundTrip(decoded, -bias);
  }

  // ---------------------------------------------------------------- ONE_VALUE below another scheme

  /** A column that decodes to one value loses nothing exactly when every live row carries it. */
  lemma ConstantlyLossless(c: Column, src: seq<int>, nulls: NullMap, v: int)
    requires Covers(nulls, |src|) && WellFormed(c, |src|)
    requires forall allNull: bool :: Decode(c, |src|, allNull) == Constantly(v, |src|)
    ensures Lossless(c, src, nulls) <==> AllLiveAre(src, nulls, v)
  {
    if Lossless(c, src, nulls) {
      assert AgreeOnLive(Decode(c, |src|, false), src, nulls);
    }
  }

  ghost predicate AllLiveAre(src: seq<int>, nulls: NullMap, v: int)
    requires Covers(nulls, |src|)
  {
    forall i :: 0 <= i < |src| && Live(nulls, i) ==> src[i] == v
  }

  lemma AtMin(src: seq<int>, nulls: NullMap, m: int)
    requires Covers(nulls, |src|) && Least(src, m)
    ensures ConstantAtMin(src, nulls) <==> AllLiveAre(src, nulls, m)
  {
  }

  /** A dictionary over ONE_VALUE codes decodes to the column's minimum everywhere. */
  lemma OneCode(c: Column, src: seq<int>, nulls: NullMap, m: int)
    requires Legal(src, nulls) && Written(c, src, nulls, false)
    requires c.scheme == DICT && c.body.codes == Column(ONE_VALUE, Constant(m))
    ensures Lossless(c, src, nulls) <==> ConstantAtMin(src, nulls)
  {
    var dict := c.body.dict;
    var cs := CodesStream(c, src, nulls, false);
    LeastCode(dict, cs, src, m);
    OneCodeDecodes(c, |src|, m);
    hide Lossless, WellFormed, Decode, Coded, Written;
    ConstantlyLossless(c, src, nulls, dict[m]);
    AtMin(src, nulls, dict[m]);
  }

  /** The least code stands for the least value. */
  lemma LeastCode(dict: seq<int>, codes: seq<int>, src: seq<int>, m: int)
    requires Coded(dict, codes, src) && Least(codes, m)
    ensures 0 <= m < |dict| && Least(src, dict[m])
  {
    var row :| 0 <= row < |codes| && codes[row] == m;
    assert src[row] == dict[m];
    forall i | 0 <= i < |src| ensures dict[m] <= src[i] {
      assert src[i] == dict[codes[i]] && m <= codes[i];
    }
  }

  lemma OneCodeDecodes(c: Column, n: nat, m: int)
    requires c.scheme == DICT && c.body.Dictionary? && c.body.codes == Column(ONE_VALUE, Constant(m))
    requires 0 <= m < |c.body.dict|
    ensures WellFormed(c, n) && forall allNull: bool :: Decode(c, n, allNull) == Constantly(c.body.dict[m], n)
  {
    assert Decode(c.body.codes, n, false) == Constantly(m, n);
  }

  /** Frame of reference over ONE_VALUE: the live biased values must all be the smallest biased value. */
  lemma OneBiased(c: Column, src: seq<int>, nulls: NullMap, m: int)
    requires Legal(src, nulls) && Written(c, src, nulls, false)
    requires c.scheme == FOR && c.body.rest == Column(ONE_VALUE, Constant(m))
    ensures Lossless(c, src, nulls) <==> ConstantAtMin(Biases(src, nulls, c.body.bias), nulls)
  {
    var biased := Biases(src, nulls, c.body.bias);
    assert Least(biased, m);
    AtMin(biased, nulls, m);
    OneBiasedLoses(c, src, nulls, m);
    hide Written, Lossless;
    if ConstantAtMin(biased, nulls) {
      OneValueLossless(biased, nulls, m);
      ForLossless(src, nulls, c.body.bias, c.body.rest);
    }
  }

  lemma OneBiasedLoses(c: Column, src: seq<int>, nulls: NullMap, m: int)
    requires Legal(src, nulls) && IsS32(m)
    requires c.scheme == FOR && c.body.Biased? && c.body.rest == Column(ONE_VALUE, Constant(m))
    ensures Lossless(c, src, nulls) ==> AllLiveAre(Biases(src, nulls, c.body.bias), nulls, m)
  {
    var bias := c.body.bias;
    if Lossless(c, src, nulls) {
      assert AgreeOnLive(Decode(c, |src|, false), src, nulls);
      hide Lossless;
      assert Decode(c, |src|, false) == AddBias(Constantly(m, |src|), bias);
      BiasRoundTrip(m, -bias);
    }
  }

  /** Exceptions over ONE_VALUE: all exceptions must be equal. */
  lemma OneException(c: Column, src: seq<int>, nulls: NullMap, m: int)
    requires Legal(src, nulls) && Written(c, src, nulls, false)
    requires c.scheme == FREQUENCY && c.body.exceptions == Column(ONE_VALUE, Constant(m))
    ensures Lossless(c, src, nulls) <==> EqualExceptions(src, c.body.rows)
  {
    var top, rows, ex := c.body.top, c.body.rows, c.body.exceptions;
    var es := ExceptionStream(c, src, nulls, false);
    assert Least(es, m);
    hide Lossless, WellFormed, Decode, Written;
    OneExceptionLoses(c, src, nulls, es, m);
    if EqualExceptions(src, rows) {
      ExceptionsAreOne(src, nulls, top, rows, es, m);
      AtMin(es, None, m);
      OneValueLossless(es, None, m);
      FrequencyLossless(top, rows, es, ex, src, nulls);
    }
  }

  ghost predicate EqualExceptions(src: seq<int>, rows: set<nat>) {
    forall i, j :: i in rows && j in rows && i < |src| && j < |src| ==> src[i] == src[j]
  }

  lemma ExceptionsAreOne(src: seq<int>, nulls: NullMap, top: int, rows: set<nat>, es: seq<int>, m: int)
    requires Covers(nulls, |src|) && ExceptionsTo(src, nulls, top, rows, es, |src|) && Least(es, m)
    requires EqualExceptions(src, rows)
    ensures AllLiveAre(es, None, m)
  {
    var order := Ascending(rows, |src|);
    var j :| 0 <= j < |es| && es[j] == m;
    forall k | 0 <= k < |es| ensures es[k] == m {
      assert order[k] in rows && order[j] in rows;
    }
  }

  lemma OneExceptionLoses(c: Column, src: seq<int>, nulls: NullMap, es: seq<int>, m: int)
    requires Covers(nulls, |src|) && c.scheme == FREQUENCY && c.body.Exceptions?
    requires c.body.exceptions == Column(ONE_VALUE, Constant(m))
    requires ExceptionsTo(src, nulls, c.body.top, c.body.rows, es, |src|)
    ensures Lossless(c, src, nulls) ==> EqualExceptions(src, c.body.rows)
  {
    var rows := c.body.rows;
    if Lossless(c, src, nulls) {
      var got := Decode(c, |src|, false);
      assert AgreeOnLive(got, src, nulls);
      hide Lossless;
      AscendingTotal(rows, |src|);
      assert |rows| > 0 ==> Decode(c.body.exceptions, |rows|, false) == Constantly(m, |rows|);
      assert got == Overlay(c.body.top, rows, if |rows| > 0 then Constantly(m, |rows|) else [], |src|);
      forall i | i in rows ensures src[i] == m {
        RankIsPosition(rows, |src|, i);
      }
    }
  }

  // ---------------------------------------------------------------- ONE_VALUE below RLE

  ghost predicate AllEqual(counts: seq<int>) {
    forall r, s :: 0 <= r < |counts| && 0 <= s < |counts| ==> counts[r] == counts[s]
  }

  /** Over ONE_VALUE counts and exact values: the decoded counts add up only when all runs are equally long. */
  lemma OneCount(c: Column, src: seq<int>, nulls: NullMap, m: int)
    requires 1 <= |src| && Legal(src, nulls) && Written(c, src, nulls, false)
    requires c.scheme == RLE && c.body.runCounts == Column(ONE_VALUE, Constant(m))
    requires Written(c.body.runValues, RunsTo(src, nulls, |src|).values, None, true)
    ensures Lossless(c, src, nulls) <==> AllEqual(RunsTo(src, nulls, |src|).counts)
  {
    var runs := RunsTo(src, nulls, |src|);
    RunLists(src, nulls);
    RunStreams(c, src, nulls, false);
    assert Least(runs.counts, m);
    CountsAddUp(c, src, nulls, runs.counts, m);
    hide RunsTo, Encoded, Lossless, Written, Legal, WellFormed, Decode;
    if AllEqual(runs.counts) {
      WrittenLossless(c.body.runValues, runs.values, None);
      AtMin(runs.counts, None, m);
      OneValueLossless(runs.counts, None, m);
      RunLengthLossless(runs.values, runs.counts, c.body.runValues, c.body.runCounts, src, nulls);
    }
  }

  /** The half that asks nothing of the values: with runs of different lengths no values stream can help. */
  lemma OneCountLosesRows(c: Column, src: seq<int>, nulls: NullMap, m: int)
    requires 1 <= |src| && Legal(src, nulls) && Written(c, src, nulls, false)
    requires c.scheme == RLE && c.body.runCounts == Column(ONE_VALUE, Constant(m))
    ensures Lossless(c, src, nulls) ==> AllEqual(RunsTo(src, nulls, |src|).counts)
  {
    RunLists(src, nulls);
    RunStreams(c, src, nulls, false);
    assert Least(RunsTo(src, nulls, |src|).counts, m);
    CountsAddUp(c, src, nulls, RunsTo(src, nulls, |src|).counts, m);
  }

  lemma CountsAddUp(c: Column, src: seq<int>, nulls: NullMap, counts: seq<int>, m: int)
    requires Covers(nulls, |src|) && c.scheme == RLE && c.body.RunLengths?
    requires c.body.runCounts == Column(ONE_VALUE, Constant(m))
    requires c.body.runs == |counts| && Least(counts, m) && Total(counts) == |src|
    ensures Lossless(c, src, nulls) ==> AllEqual(counts)
  {
    LeastSum(counts, m, |counts|);
    if Lossless(c, src, nulls) {
      assert Decode(c.body.runCounts, |counts|, false) == Constantly(m, |counts|);
      assert Total(Constantly(m, |counts|)) == |src|;
    }
  }

  /** Replacing counts by the least of them shortens the sum, unless they are all equal. */
  lemma {:induction false} LeastSum(counts: seq<int>, m: int, k: nat)
    requires k <= |counts| && forall r :: 0 <= r < |counts| ==> m <= counts[r]
    ensures Start(Constantly(m, |counts|), k) <= Start(counts, k)
    ensures Start(Constantly(m, |counts|), k) == Start(counts, k) ==> forall r :: 0 <= r < k ==> counts[r] == m
  {
    if k > 0 {
      LeastSum(counts, m, k - 1);
    }
  }

  /** Over ONE_VALUE values and exact counts the column decodes to one value, which every live row must carry. */
  lemma OneRunValue(c: Column, src: seq<int>, nulls: NullMap, m: int)
    requires 1 <= |src| && Legal(src, nulls) && Written(c, src, nulls, false)
    requires c.scheme == RLE && c.body.runValues == Column(ONE_VALUE, Constant(m))
    requires Written(c.body.runCounts, RunsTo(src, nulls, |src|).counts, None, true)
    ensures Lossless(c, src, nulls) <==> AllLiveAre(src, nulls, m)
  {
    var runs := RunsTo(src, nulls, |src|);
    RunLists(src, nulls);
    RunStreams(c, src, nulls, false);
    hide RunsTo, Encoded, Lossless, Written, Legal, WellFormed, Decode;
    WrittenLossless(c.body.runCounts, runs.counts, None);
    LosslessExact(c.body.runCounts, runs.counts);
    OneRunExpands(c, |src|, runs.counts, m);
    ConstantlyLossless(c, src, nulls, m);
  }

  lemma OneRunExpands(c: Column, n: nat, counts: seq<int>, m: int)
    requires c.scheme == RLE && c.body.RunLengths? && c.body.runValues == Column(ONE_VALUE, Constant(m))
    requires c.body.runs == |counts| && Positive(counts) && Total(counts) == n
    requires WellFormed(c.body.runCounts, |counts|) && Decode(c.body.runCounts, |counts|, false) == counts
    ensures WellFormed(c, n) && forall allNull: bool :: Decode(c, n, allNull) == Constantly(m, n)
  {
    var values := Constantly(m, |counts|);
    ExpandLength(values, counts, |counts|);
    forall i: nat | i < n ensures Expand(values, counts)[i] == m {
      var r := OwnerOf(counts, |counts|, i);
      ExpandAt(values, counts, |counts|, r, i);
    }
    assert Decode(c.body.runValues, |counts|, false) == values;
    assert Decode(c, n, false) == Expand(values, counts) && Decode(c, n, true) == Expand(values, counts);
  }

  // ---------------------------------------------------------------- failing columns

  /** ONE_VALUE keeps 1 for both rows. */
  lemma OneValueLoses()
    ensures Written(Column(ONE_VALUE, Constant(1)), [1, 2], None, false)
    ensures !Lossless(Column(ONE_VALUE, Constant(1)), [1, 2], None)
  {
    var src := [1, 2];
    assert src[0] == 1 && src[1] == 2;
    assert Least(src, 1);
    OneValueLossless(src, None, 1);
    AtMin(src, None, 1);
  }

  /** Runs of one and two rows over ONE_VALUE counts: one row is missing. */
  lemma OneCountLoses()
    ensures var c := Column(RLE, RunLengths(2, Column(UNCOMPRESSED, Raw([1, 2])), Column(ONE_VALUE, Constant(1))));
      Written(c, [1, 2, 2], None, false) && !Lossless(c, [1, 2, 2], None)
  {
    var src, counts := [1, 2, 2], [1, 2];
    assert RunsTo(src, None, 1) == Runs([1], [1]);
    assert RunsTo(src, None, 2) == Runs([1, 2], [1, 1]);
    assert RunsTo(src, None, 3) == Runs([1, 2], counts);
    assert counts[0] == 1 && counts[1] == 2;
    assert Least(counts, 1);
    var c := Column(RLE, RunLengths(2, Column(UNCOMPRESSED, Raw([1, 2])), Column(ONE_VALUE, Constant(1))));
    OneCount(c, src, None, 1);
  }
}
