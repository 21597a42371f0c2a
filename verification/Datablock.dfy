/** A whole integer column end to end: chunks through the picker and the null-map encoder, and back by random access. */
module Datablock {
  import opened Words
  import opened Cascade
  import opened IntegerSchemes
  import opened SchemePicker
  import opened NullBitmap
  import opened ColumnReader
  import opened ScratchStacks
  import opened CascadeReader

  /** A chunk as it is handed in: the values, and a flag per row that marks a present value. */
  datatype InputChunk = InputChunk(values: seq<int>, present: seq<bool>)
  {
    predicate Valid() { 1 <= |values| < MAX_ROWS && |present| == |values| && AllS32(values) }
  }

  ghost predicate ValidInput(inputs: seq<InputChunk>) { forall c :: 0 <= c < |inputs| ==> inputs[c].Valid() }

  /** The stored chunk and null map stand for the input chunk. */
  ghost predicate Stores(chunk: Chunk, nullmap: Stored, input: InputChunk)
    requires input.Valid()
  {
    && chunk.tuples == |input.values| && Lossless(chunk.column, input.values, Some(input.present))
    && nullmap.Fits(chunk.tuples) && nullmap.Bits(chunk.tuples) == input.present
    && chunk.allNull == (nullmap.kind == ALLZEROS)
  }

  ghost predicate StoresAll(chunks: seq<Chunk>, nullmaps: seq<Stored>, inputs: seq<InputChunk>)
    requires ValidInput(inputs)
  {
    |chunks| == |nullmaps| == |inputs| && forall c :: 0 <= c < |chunks| ==> Stores(chunks[c], nullmaps[c], inputs[c])
  }

  /** The picker was called for every chunk, with its null map and the full depth. */
  ghost predicate AllAsked(events: seq<Event>, from: nat, inputs: seq<InputChunk>, depth: nat) {
    forall c :: 0 <= c < |inputs| ==>
      Noted(events, from, Asked(inputs[c].values, Some(inputs[c].present), depth, None))
  }

  /** `Datablock::compress`, one integer chunk at the top of the cascade. */
  method CompressChunk(picker: Picker, input: InputChunk, depth: nat) returns (chunk: Chunk, nullmap: Stored)
    requires picker.Configured() && picker.Unforced() && input.Valid()
    modifies picker
    ensures picker.Restored() && Stores(chunk, nullmap, input)
    ensures Noted(picker.history, |old(picker.history)|, Asked(input.values, Some(input.present), depth, None))
  {
    var body, size, code := picker.Compress(input.values, Some(input.present), depth, None);
    nullmap := NullBitmap.Compress(input.present);
    chunk := Chunk(Column(code, body), |input.values|, nullmap.kind == ALLZEROS);
  }

  method CompressColumn(picker: Picker, inputs: seq<InputChunk>, depth: nat)
    returns (chunks: seq<Chunk>, nullmaps: seq<Stored>)
    requires picker.Configured() && picker.Unforced() && ValidInput(inputs)
    modifies picker
    ensures picker.Restored() && StoresAll(chunks, nullmaps, inputs)
    ensures AllAsked(picker.history, |old(picker.history)|, inputs, depth)
  {
    hide Stores, Noted;
    chunks, nullmaps := [], [];
    while |chunks| < |inputs|
      invariant |chunks| <= |inputs| && picker.Restored() && picker.Configured() && picker.Unforced()
      invariant StoresAll(chunks, nullmaps, inputs[..|chunks|])
      invariant AllAsked(picker.history, |old(picker.history)|, inputs[..|chunks|], depth)
    {
      ghost var before := picker.history;
      var chunk, nullmap := CompressChunk(picker, inputs[|chunks|], depth);
      NotedStays(before, picker.history, |old(picker.history)|);
      NotedEarlier(picker.history, |before|, |old(picker.history)|);
      chunks, nullmaps := chunks + [chunk], nullmaps + [nullmap];
    }
    assert inputs[..|chunks|] == inputs;
  }

  // ---------------------------------------------------------------- the column as it was

  function RowCounts(inputs: seq<InputChunk>): (counts: seq<int>)
    ensures |counts| == |inputs| && forall c :: 0 <= c < |counts| ==> counts[c] == |inputs[c].values|
  {
    seq(|inputs|, c requires 0 <= c < |inputs| => |inputs[c].values|)
  }

  /** The input chunks that hold a requested row. */
  ghost function InputsHit(inputs: seq<InputChunk>, positions: seq<nat>): set<nat> {
    set c: nat | c < |inputs| && Hit(RowCounts(inputs), positions, c)
  }

  lemma SameTuples(chunks: seq<Chunk>, nullmaps: seq<Stored>, inputs: seq<InputChunk>)
    requires ValidInput(inputs) && StoresAll(chunks, nullmaps, inputs)
    ensures Tuples(chunks) == RowCounts(inputs)
    ensures forall positions: seq<nat> :: ChunksHit(chunks, positions) == InputsHit(inputs, positions)
  {
    assert forall c :: 0 <= c < |chunks| ==> Stores(chunks[c], nullmaps[c], inputs[c]);
    assert Tuples(chunks) == RowCounts(inputs);
  }

  ghost function ValuesTo(inputs: seq<InputChunk>, k: nat): seq<int>
    requires k <= |inputs|
  {
    if k == 0 then [] else ValuesTo(inputs, k - 1) + inputs[k - 1].values
  }

  ghost function PresentTo(inputs: seq<InputChunk>, k: nat): seq<bool>
    requires k <= |inputs|
  {
    if k == 0 then [] else PresentTo(inputs, k - 1) + inputs[k - 1].present
  }

  /** The concatenated decoded chunks agree with the concatenated input on every present row. */
  lemma {:induction false} ColumnRestored(chunks: seq<Chunk>, nullmaps: seq<Stored>, inputs: seq<InputChunk>, k: nat)
    requires ValidInput(inputs) && StoresAll(chunks, nullmaps, inputs) && k <= |inputs|
    ensures ValidChunks(chunks) && |PresentTo(inputs, k)| == |ValuesTo(inputs, k)|
    ensures AgreeOnLive(ColumnTo(chunks, k), ValuesTo(inputs, k), Some(PresentTo(inputs, k)))
  {
    forall c | 0 <= c < |chunks| ensures WellFormed(chunks[c].column, chunks[c].tuples) {
      assert Stores(chunks[c], nullmaps[c], inputs[c]);
    }
    if k > 0 {
      ColumnRestored(chunks, nullmaps, inputs, k - 1);
      ChunkRestored(chunks[k - 1], nullmaps[k - 1], inputs[k - 1]);
      hide Lossless, WellFormed, Decode;
    }
  }

  lemma ChunkRestored(chunk: Chunk, nullmap: Stored, input: InputChunk)
    requires input.Valid() && Stores(chunk, nullmap, input)
    ensures WellFormed(chunk.column, chunk.tuples)
    ensures AgreeOnLive(Values(chunk), input.values, Some(input.present))
  {
    if chunk.allNull {
      forall i | 0 <= i < |input.values| ensures !input.present[i] {
        assert nullmap.Bits(chunk.tuples)[i] == nullmap.Bit(i);
      }
    }
  }

  /** One stored chunk: `scheme.gather` on a lossless stream answers every present row with the input's value. */
  method GatherChunk(dest: array<int>, chunk: Chunk, ghost nullmap: Stored, ghost input: InputChunk,
                     positions: seq<nat>,
                     level: nat, scratch: Scratch)
    requires input.Valid() && Stores(chunk, nullmap, input) && InRange(positions, |input.values|)
    requires scratch.Valid() && dest !in scratch.From(level, false) && |positions| <= dest.Length
    modifies scratch, scratch.From(level, false), dest
    ensures scratch.Evolved(level, false)
    ensures forall i :: 0 <= i < |positions| && input.present[positions[i]] ==> dest[i] == input.values[positions[i]]
    ensures forall i :: |positions| <= i < dest.Length ==> dest[i] == old(dest[i])
  {
    ChunkRestored(chunk, nullmap, input);
    hide WellFormed, Decode, Lossless;
    Gather(dest, chunk.column, chunk.tuples, chunk.allNull, positions, level, scratch);
    forall i | 0 <= i < |positions| ensures dest[i] == Values(chunk)[positions[i]] {
      assert dest[i] == dest[..|positions|][i];
    }
  }

  /** `lookupAt`: a gather of one position. */
  method LookupAt(chunk: Chunk, ghost nullmap: Stored, ghost input: InputChunk, position: nat, level: nat,
                  scratch: Scratch)
    returns (value: int)
    requires input.Valid() && Stores(chunk, nullmap, input) && position < |input.values| && scratch.Valid()
    modifies scratch, scratch.From(level, false)
    ensures scratch.Evolved(level, false)
    ensures input.present[position] ==> value == input.values[position]
  {
    var result := new int[1];
    GatherChunk(result, chunk, nullmap, input, [position], level, scratch);
    value := result[0];
  }

  /**
    * The whole way: compress every chunk under any configuration that forces nothing, then ask for any rows in any
    * order. Every present row comes back with its value, and as many chunks are touched as hold a requested row.
    */
  method StoreAndGather(picker: Picker, inputs: seq<InputChunk>, depth: nat, dest: array<int>, positions: seq<nat>,
                        scratch: Scratch)
    returns (touched: Result<nat, ColumnReader.Error>)
    requires picker.Configured() && picker.Unforced() && ValidInput(inputs)
    requires scratch.Valid() && dest !in scratch.From(0, false) && |positions| <= dest.Length
    modifies picker, scratch, scratch.From(0, false), dest
    ensures |PresentTo(inputs, |inputs|)| == |ValuesTo(inputs, |inputs|)|
    ensures touched.Ok? <==> InRange(positions, |ValuesTo(inputs, |inputs|)|)
    ensures touched.Ok? ==> forall i :: 0 <= i < |positions| && PresentTo(inputs, |inputs|)[positions[i]] ==>
      dest[i] == ValuesTo(inputs, |inputs|)[positions[i]]
    ensures touched.Ok? ==> touched.value == |InputsHit(inputs, positions)|
  {
    hide Stores, WellFormed, Decode;
    var chunks, nullmaps := CompressColumn(picker, inputs, depth);
    ColumnRestored(chunks, nullmaps, inputs, |inputs|);
    SameTuples(chunks, nullmaps, inputs);
    touched := GatherColumn(dest, true, chunks, positions, scratch);
  }
}
