/** Encoded integer columns as trees of schemes, and what a column decodes to. */
module Cascade {
  import opened Words
  import opened RunLength
  import opened Bitmap
  import Packing = BitPacking

  /** `IntegerSchemeType`, restricted to the schemes modelled here. */
  datatype SchemeCode = UNCOMPRESSED | ONE_VALUE | DICT | RLE | PFOR | BP | FREQUENCY | FOR

  /** A compressed stream, together with the scheme code its owner recorded for it. */
  datatype Column = Column(scheme: SchemeCode, body: Body)

  /** The layouts the schemes write. */
  datatype Body =
    | Raw(values: seq<int>)
    | Constant(value: int)
    | Dictionary(dict: seq<int>, codes: Column)
    | RunLengths(runs: nat, runValues: Column, runCounts: Column)
    | Exceptions(top: int, rows: set<nat>, exceptions: Column)
    | Biased(bias: int, rest: Column)
    | Packed(words: seq<nat>, tail: seq<int>)
    | Foreign(payload: seq<int>)

  /** The recorded scheme is the one that wrote the layout. */
  predicate Tagged(c: Column) {
    match c.scheme
    case UNCOMPRESSED => c.body.Raw?
    case ONE_VALUE => c.body.Constant?
    case DICT => c.body.Dictionary?
    case RLE => c.body.RunLengths?
    case PFOR => c.body.Foreign?
    case BP => c.body.Packed?
    case FREQUENCY => c.body.Exceptions?
    case FOR => c.body.Biased?
  }

  predicate CodesInRange(codes: seq<int>, dict: seq<int>) {
    forall i :: 0 <= i < |codes| ==> 0 <= codes[i] < |dict|
  }

  /** A stream of the FBP composite codec: block-packed values first (their number is word 0), then the tail. */
  predicate PackedStream(words: seq<nat>, tail: seq<int>, n: nat) {
    && 1 <= |words| && words[0] % Packing.BLOCK == 0 && words[0] + |tail| == n
    && Packing.HasBlocks(words, 1, words[0] / Packing.BLOCK)
  }

  /** What decoding `n` rows from `c` relies on. */
  ghost predicate WellFormed(c: Column, n: nat)
    decreases c, 0
  {
    Tagged(c) &&
    match c.body
    case Raw(values) => |values| == n
    case Constant(_) => true
    case Dictionary(dict, codes) => WellFormed(codes, n) && CodesInRange(Decode(codes, n, false), dict)
    case RunLengths(runs, vs, cs) =>
      && WellFormed(vs, runs) && WellFormed(cs, runs)
      && NonNegative(Decode(cs, runs, false)) && Total(Decode(cs, runs, false)) == n
    case Exceptions(_, rows, ex) => Within(rows, n) && (|rows| > 0 ==> WellFormed(ex, |rows|))
    case Biased(_, rest) => WellFormed(rest, n)
    case Packed(words, tail) => PackedStream(words, tail, n)
    case Foreign(payload) => |payload| == n
  }

  function Constantly(v: int, n: nat): (s: seq<int>)
    ensures |s| == n && forall i :: 0 <= i < n ==> s[i] == v
  {
    seq(n, _ => v)
  }

  function Lookup(dict: seq<int>, codes: seq<int>): (s: seq<int>)
    requires CodesInRange(codes, dict)
    ensures |s| == |codes| && forall i :: 0 <= i < |s| ==> s[i] == dict[codes[i]]
  {
    seq(|codes|, i requires 0 <= i < |codes| => dict[codes[i]])
  }

  function AddBias(values: seq<int>, bias: int): (s: seq<int>)
    ensures |s| == |values| && forall i :: 0 <= i < |s| ==> s[i] == S32(values[i] + bias)
  {
    seq(|values|, i requires 0 <= i < |values| => S32(values[i] + bias))
  }

  function Signed(words: seq<nat>): (s: seq<int>)
    ensures |s| == |words| && forall i :: 0 <= i < |s| ==> s[i] == S32(words[i])
  {
    seq(|words|, i requires 0 <= i < |words| => S32(words[i]))
  }

  /** The top value everywhere but on the exception rows, which take the stored exceptions in row order. */
  ghost function Overlay(top: int, rows: set<nat>, ex: seq<int>, n: nat): (s: seq<int>)
    requires Within(rows, n) && |ex| == |rows|
    ensures |s| == n
  {
    seq(n, i requires 0 <= i < n =>
      if i in rows then (RankIsPosition(rows, n, i); AscendingTotal(rows, n); ex[Rank(rows, i) - 1]) else top)
  }

  /** Sequential decode of the composite codec. */
  function DecodePacked(words: seq<nat>, tail: seq<int>, n: nat): (s: seq<int>)
    requires PackedStream(words, tail, n)
    ensures |s| == n
  {
    Signed(Packing.DecodeBlocks(words, 1, words[0] / Packing.BLOCK)) + tail
  }

  /** `scheme.decompress`; `allNull` is a null map of type ALLZEROS, which only FOR looks at. */
  ghost function Decode(c: Column, n: nat, allNull: bool): (s: seq<int>)
    requires WellFormed(c, n)
    ensures |s| == n
    decreases c, 1
  {
    match c.body
    case Raw(values) => values
    case Constant(v) => Constantly(v, n)
    case Dictionary(dict, codes) => Lookup(dict, Decode(codes, n, false))
    case RunLengths(runs, vs, cs) =>
      ExpandLength(Decode(vs, runs, false), Decode(cs, runs, false), runs);
      Expand(Decode(vs, runs, false), Decode(cs, runs, false))
    case Exceptions(top, rows, ex) => Overlay(top, rows, if |rows| > 0 then Decode(ex, |rows|, false) else [], n)
    case Biased(bias, rest) => if allNull then Decode(rest, n, true) else AddBias(Decode(rest, n, false), bias)
    case Packed(words, tail) => DecodePacked(words, tail, n)
    case Foreign(payload) => payload
  }

  /** Random access: the requested rows, in the order asked for, repeats included. */
  function Pick(values: seq<int>, positions: seq<nat>): (s: seq<int>)
    requires InRange(positions, |values|)
    ensures |s| == |positions| && forall i :: 0 <= i < |s| ==> s[i] == values[positions[i]]
  {
    seq(|positions|, i requires 0 <= i < |positions| => values[positions[i]])
  }

  predicate InRange(positions: seq<nat>, n: nat) { forall i :: 0 <= i < |positions| ==> positions[i] < n }
}
