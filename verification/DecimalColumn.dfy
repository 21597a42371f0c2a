/** Pseudodecimal columns over the integer cascade: significands and exponents are compressed in turn. */
module DecimalColumn {
  import opened Words
  import opened Pseudodecimal
  import opened Cascade
  import opened IntegerSchemes
  import opened ScratchStacks
  import opened CascadeReader
  import opened SchemePicker

  /** The stored streams. Significands are stored only if there are any; patches are left as values. */
  datatype DecimalColumn<D> =
    DecimalColumn(count: nat, numbers: Option<Column>, exponents: Column, patches: seq<D>, blocks: set<nat>, flags: bv8)

  /** Both integer streams decode to the encoder's. */
  ghost predicate Holds<D(!new)>(c: DecimalColumn<D>, streams: Streams<D>) {
    && c.count == |streams.numbers| && c.patches == streams.patches && (c.numbers.None? <==> c.count == 0)
    && (c.numbers.Some? ==> Lossless(c.numbers.value, streams.numbers, None))
    && Lossless(c.exponents, streams.exponents, None) && MarksExceptions(c.blocks, streams.exponents)
  }

  /** `Decimal::compress`: the encoder, then both integer streams at depth - 1; an abandoned encode stores nothing. */
  method CompressColumn<D(!new, ==)>(picker: Picker, f: Format<D>, src: seq<D>, totalSize: nat, depth: nat)
    returns (c: Option<DecimalColumn<D>>)
    requires picker.Configured() && picker.Unforced() && 1 <= picker.compressionLevel
    requires f.limit <= 31 && |src| < MAX_ROWS && 1 <= depth
    modifies picker
    ensures picker.Restored() && (c.None? <==> TooMany(f, src))
    ensures c.Some? ==>
      var streams, events, from := StreamsTo(f, src, |src|), picker.history, |old(picker.history)|;
      && Holds(c.value, streams)
      && (streams.numbers != [] ==> Noted(events, from, Asked(streams.numbers, None, depth - 1, None)))
      && Noted(events, from, Asked(streams.exponents, None, depth - 1, None))
      && FlagsTell(c.value.flags, c.value.blocks, BlockCount(|src|))
  {
    hide Noted, FlagsTell, TooMany, ScalarDecode, Lossless, ExponentOf, Patched, StreamsTo, MarksExceptions;
    var r := Encode(f, src, totalSize);
    if r.GaveUp? {
      return None;
    }
    StreamsAreSmall(f, src, |src|);
    var numbers, exponents := CompressStreams(picker, r.streams.numbers, r.streams.exponents, depth);
    c := Some(DecimalColumn(|r.streams.numbers|, numbers, exponents, r.streams.patches, r.blocks, r.flags));
  }

  method CompressStreams(picker: Picker, numbers: seq<int>, exponents: seq<int>, depth: nat)
    returns (ns: Option<Column>, es: Column)
    requires picker.Configured() && picker.Unforced() && 1 <= picker.compressionLevel && 1 <= depth
    requires picker.Input(numbers, None) && picker.Input(exponents, None)
    modifies picker
    ensures picker.Restored() && (ns.None? <==> numbers == [])
    ensures (ns.Some? ==> Lossless(ns.value, numbers, None)) && Lossless(es, exponents, None)
    ensures numbers != [] ==>
      Noted(picker.history, |old(picker.history)|, Asked(numbers, None, depth - 1, None))
    ensures Noted(picker.history, |old(picker.history)|, Asked(exponents, None, depth - 1, None))
  {
    hide Noted, Picker.Decided, Picker.SizeBounds, Picker.StreamSize, Picker.Faithful, Lossless;
    ns := None;
    if |numbers| > 0 {
      var body, used, scheme := picker.Compress(numbers, None, depth - 1, None);
      ns := Some(Column(scheme, body));
    }
    ghost var between := picker.history;
    var body, used, scheme := picker.Compress(exponents, None, depth - 1, None);
    es := Column(scheme, body);
    NotedStays(between, picker.history, |old(picker.history)|);
    NotedEarlier(picker.history, |between|, |old(picker.history)|);
  }

  lemma {:induction false} StreamsAreSmall<D>(f: Format<D>, src: seq<D>, n: nat)
    requires n <= |src|
    ensures |StreamsTo(f, src, n).numbers| <= n && AllS32(StreamsTo(f, src, n).exponents)
  {
    if n > 0 {
      StreamsAreSmall(f, src, n - 1);
    }
  }

  /** `Decimal::decompress`: both streams one level deeper, in buffers of this level, then rows or blocks. */
  method DecompressColumn<D(!new, ==)>(f: Format<D>, c: DecimalColumn<D>, ghost streams: Streams<D>, n: nat,
                                       dest: array<D>,
                                       level: nat, scratch: Scratch)
    requires Holds(c, streams) && n == |streams.exponents| <= dest.Length && Complete(streams, n) && scratch.Valid()
    modifies scratch, scratch.From(level, true), dest
    ensures scratch.Evolved(level, true) && dest[..n] == ScalarDecode(f, streams)
  {
    hide ScalarDecode, Complete, MarksExceptions, WellFormed, Decode, Lossless;
    var numbers: seq<int> := [];
    if c.numbers.Some? {
      LosslessExact(c.numbers.value, streams.numbers);
      var buffer := DecodeChild(DecimalNumbers, c.numbers.value, c.count, false, level, scratch);
      numbers := buffer[..c.count];
    }
    LosslessExact(c.exponents, streams.exponents);
    var buffer := DecodeChild(DecimalExponents, c.exponents, n, false, level, scratch);
    var exponents := buffer[..n];
    assert Streams(exponents, numbers, c.patches) == streams;
    Pseudodecimal.Decompress(f, Streams(exponents, numbers, c.patches), c.blocks, c.flags, dest);
  }

  /** There and back: unless more than half of the rows are exceptions, every row returns. */
  method StoreAndLoad<D(!new, ==)>(picker: Picker, f: Format<D>, src: seq<D>, totalSize: nat, depth: nat,
                                   dest: array<D>,
                                   level: nat, scratch: Scratch)
    returns (stored: bool)
    requires picker.Configured() && picker.Unforced() && 1 <= picker.compressionLevel
    requires f.limit <= 31 && |src| < MAX_ROWS && 1 <= depth && |src| <= dest.Length && scratch.Valid()
    modifies picker, scratch, scratch.From(level, true), dest
    ensures stored <==> !TooMany(f, src)
    ensures stored ==> dest[..|src|] == src
  {
    var c := CompressColumn(picker, f, src, totalSize, depth);
    stored := c.Some?;
    if stored {
      hide TooMany, ScalarDecode, Complete, Holds, StreamsTo;
      StreamsDecode(f, src, |src|);
      DecompressColumn(f, c.value, StreamsTo(f, src, |src|), |src|, dest, level, scratch);
      assert src[..|src|] == src;
    }
  }
}
