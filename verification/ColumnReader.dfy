/** Random access into a column that is stored as several chunks. */
module ColumnReader {
  import opened Words
  import opened RunLength
  import opened Cascade
  import opened ScratchStacks
  import opened CascadeReader

  /** A stored chunk; `allNull` is a null map of type ALLZEROS. */
  datatype Chunk = Chunk(column: Column, tuples: nat, allNull: bool)

  datatype Error = UnsupportedType | OutOfRange

  ghost predicate ValidChunks(chunks: seq<Chunk>) {
    forall c :: 0 <= c < |chunks| ==> WellFormed(chunks[c].column, chunks[c].tuples)
  }

  ghost function Values(chunk: Chunk): (s: seq<int>)
    requires WellFormed(chunk.column, chunk.tuples)
    ensures |s| == chunk.tuples
  {
    Decode(chunk.column, chunk.tuples, chunk.allNull)
  }

  /** The decoded chunks laid end to end. */
  ghost function ColumnTo(chunks: seq<Chunk>, k: nat): seq<int>
    requires ValidChunks(chunks) && k <= |chunks|
  {
    if k == 0 then [] else ColumnTo(chunks, k - 1) + Values(chunks[k - 1])
  }

  ghost function WholeColumn(chunks: seq<Chunk>): seq<int>
    requires ValidChunks(chunks)
  {
    ColumnTo(chunks, |chunks|)
  }

  /** The tuple counts from the chunks' metadata. */
  function Tuples(chunks: seq<Chunk>): (counts: seq<int>)
    ensures |counts| == |chunks| && NonNegative(counts)
    ensures forall c :: 0 <= c < |chunks| ==> counts[c] == chunks[c].tuples
  {
    seq(|chunks|, c requires 0 <= c < |chunks| => chunks[c].tuples)
  }

  lemma {:induction false} ColumnLength(chunks: seq<Chunk>, k: nat)
    requires ValidChunks(chunks) && k <= |chunks|
    ensures |ColumnTo(chunks, k)| == Start(Tuples(chunks), k)
  {
    if k > 0 {
      ColumnLength(chunks, k - 1);
    }
  }

  /** A row of the column is a row of the chunk that owns it. */
  lemma {:induction false} RowOfChunk(chunks: seq<Chunk>, k: nat, c: nat, row: nat)
    requires ValidChunks(chunks) && c < k <= |chunks| && Owns(Tuples(chunks), c, row)
    ensures row < |ColumnTo(chunks, k)| && 0 <= row - Start(Tuples(chunks), c) < chunks[c].tuples
    ensures ColumnTo(chunks, k)[row] == Values(chunks[c])[row - Start(Tuples(chunks), c)]
  {
    hide WellFormed, Decode, Values;
    ColumnLength(chunks, k - 1);
    if c < k - 1 {
      RowOfChunk(chunks, k - 1, c, row);
    }
  }

  // ---------------------------------------------------------------- prefix sums and search

  method ChunkStarts(chunks: seq<Chunk>) returns (starts: seq<int>)
    ensures |starts| == |chunks| + 1
    ensures forall k: nat :: k <= |chunks| ==> starts[k] == Start(Tuples(chunks), k)
  {
    starts := [0];
    var c := 0;
    while c < |chunks|
      invariant 0 <= c <= |chunks| && |starts| == c + 1
      invariant forall k: nat :: k <= c ==> starts[k] == Start(Tuples(chunks), k)
    {
      starts := starts + [starts[c] + chunks[c].tuples];
      c := c + 1;
    }
  }

  /** `std::upper_bound`: the first element greater than `row`. */
  method UpperBound(starts: seq<int>, row: int) returns (lo: nat)
    requires forall i, j :: 0 <= i <= j < |starts| ==> starts[i] <= starts[j]
    ensures lo <= |starts|
    ensures (forall i :: 0 <= i < lo ==> starts[i] <= row) && (forall i :: lo <= i < |starts| ==> row < starts[i])
  {
    lo := 0;
    var hi := |starts|;
    while lo < hi
      invariant 0 <= lo <= hi <= |starts|
      invariant (forall i :: 0 <= i < lo ==> starts[i] <= row) && (forall i :: hi <= i < |starts| ==> row < starts[i])
    {
      var mid := lo + (hi - lo) / 2;
      if row < starts[mid] {
        hi := mid;
      } else {
        lo := mid + 1;
      }
    }
  }

  /** The chunk that owns the row; empty chunks own nothing. */
  method FindChunk(starts: seq<int>, ghost counts: seq<int>, row: nat) returns (c: nat)
    requires NonNegative(counts) && |starts| == |counts| + 1 && row < Total(counts)
    requires forall k: nat :: k <= |counts| ==> starts[k] == Start(counts, k)
    ensures c < |counts| && Owns(counts, c, row)
  {
    forall i, j | 0 <= i <= j < |starts| ensures starts[i] <= starts[j] {
      StartMonotone(counts, i, j);
    }
    var above := UpperBound(starts, row);
    assert starts[0] == 0;
    c := above - 1;
  }

  // ---------------------------------------------------------------- buckets

  /** Requests per chunk: local positions, and the output slots they came from. */
  datatype Buckets = Buckets(local: seq<seq<nat>>, slots: seq<seq<nat>>)

  /** The requested row `i` has its entry in bucket `c`, at place `j`. */
  ghost predicate EntryOk(b: Buckets, counts: seq<int>, positions: seq<nat>, owners: seq<nat>, c: nat, j: nat)
    requires c < |b.local| == |b.slots| <= |counts| && j < |b.slots[c]| == |b.local[c]|
  {
    var i := b.slots[c][j];
    && i < |owners| <= |positions| && owners[i] == c && positions[i] == Start(counts, c) + b.local[c][j]
    && b.local[c][j] < counts[c]
  }

  /** Bucket `c` lists exactly the requests its chunk owns, each once and in request order. */
  ghost predicate BucketOk(b: Buckets, counts: seq<int>, positions: seq<nat>, owners: seq<nat>, c: nat)
    requires c < |b.local| == |b.slots| <= |counts|
  {
    && |b.local[c]| == |b.slots[c]|
    && (forall j: nat :: j < |b.slots[c]| ==> EntryOk(b, counts, positions, owners, c, j))
    && (forall j, k :: 0 <= j < k < |b.slots[c]| ==> b.slots[c][j] < b.slots[c][k])
    && (forall i: nat :: i < |owners| && owners[i] == c ==> i in b.slots[c])
  }

  ghost predicate Bucketed(b: Buckets, counts: seq<int>, positions: seq<nat>, owners: seq<nat>) {
    && |b.local| == |b.slots| == |counts| && |owners| <= |positions|
    && (forall i :: 0 <= i < |owners| ==> owners[i] < |counts| && Owns(counts, owners[i], positions[i]))
    && (forall c: nat :: c < |counts| ==> BucketOk(b, counts, positions, owners, c))
  }

  /** Requests are handed to the chunk that owns them; a request past the last row stops the bucketing. */
  method Bucket(chunks: seq<Chunk>, positions: seq<nat>) returns (inRange: bool, b: Buckets, ghost owners: seq<nat>)
    ensures 0 <= Total(Tuples(chunks)) && (inRange <==> InRange(positions, Total(Tuples(chunks))))
    ensures inRange ==> |owners| == |positions| && Bucketed(b, Tuples(chunks), positions, owners)
  {
    ghost var counts := Tuples(chunks);
    var starts := ChunkStarts(chunks);
    StartMonotone(counts, 0, |counts|);
    var none: seq<nat> := [];
    b, owners := Buckets(seq(|chunks|, _ => none), seq(|chunks|, _ => none)), [];
    var i := 0;
    while i < |positions|
      invariant 0 <= i == |owners| <= |positions|
      invariant forall k :: 0 <= k < i ==> positions[k] < Total(counts)
      invariant Bucketed(b, counts, positions, owners)
    {
      if starts[|chunks|] <= positions[i] {
        inRange := false;
        return;
      }
      var c := FindChunk(starts, counts, positions[i]);
      RequestAdded(b, counts, positions, owners, c, positions[i] - starts[c]);
      b := Buckets(b.local[c := b.local[c] + [positions[i] - starts[c]]], b.slots[c := b.slots[c] + [i]]);
      owners := owners + [c];
      i := i + 1;
    }
    inRange := true;
  }

  lemma RequestAdded(b: Buckets, counts: seq<int>, positions: seq<nat>, owners: seq<nat>, c: nat, local: nat)
    requires NonNegative(counts) && Bucketed(b, counts, positions, owners) && |owners| < |positions| && c < |counts|
    requires Owns(counts, c, positions[|owners|]) && local == positions[|owners|] - Start(counts, c)
    ensures Bucketed(Buckets(b.local[c := b.local[c] + [local]], b.slots[c := b.slots[c] + [|owners|]]),
                     counts, positions, owners + [c])
  {
    var more := Buckets(b.local[c := b.local[c] + [local]], b.slots[c := b.slots[c] + [|owners|]]);
    forall d: nat | d < |counts| ensures BucketOk(more, counts, positions, owners + [c], d) {
      assert BucketOk(b, counts, positions, owners, d);
      if d == c {
        BucketGrows(b, counts, positions, owners, c, local);
      } else {
        BucketKept(b, counts, positions, owners, c, local, d);
      }
    }
  }

  lemma BucketKept(b: Buckets, counts: seq<int>, positions: seq<nat>, owners: seq<nat>, c: nat, local: nat, d: nat)
    requires |b.local| == |b.slots| == |counts| && c < |counts| && d < |counts| && d != c && |owners| < |positions|
    requires BucketOk(b, counts, positions, owners, d)
    ensures BucketOk(Buckets(b.local[c := b.local[c] + [local]], b.slots[c := b.slots[c] + [|owners|]]),
                     counts, positions, owners + [c], d)
  {
    var more := Buckets(b.local[c := b.local[c] + [local]], b.slots[c := b.slots[c] + [|owners|]]);
    forall j: nat | j < |b.slots[d]| ensures EntryOk(more, counts, positions, owners + [c], d, j) {
      assert EntryOk(b, counts, positions, owners, d, j);
    }
  }

  lemma BucketGrows(b: Buckets, counts: seq<int>, positions: seq<nat>, owners: seq<nat>, c: nat, local: nat)
    requires |b.local| == |b.slots| == |counts| && c < |counts| && |owners| < |positions|
    requires BucketOk(b, counts, positions, owners, c)
    requires Owns(counts, c, positions[|owners|]) && local == positions[|owners|] - Start(counts, c)
    ensures BucketOk(Buckets(b.local[c := b.local[c] + [local]], b.slots[c := b.slots[c] + [|owners|]]),
                     counts, positions, owners + [c], c)
  {
    var more := Buckets(b.local[c := b.local[c] + [local]], b.slots[c := b.slots[c] + [|owners|]]);
    forall j: nat | j < |more.slots[c]| ensures EntryOk(more, counts, positions, owners + [c], c, j) {
      if j < |b.slots[c]| {
        assert EntryOk(b, counts, positions, owners, c, j);
      }
    }
    forall j, k | 0 <= j < k < |more.slots[c]| ensures more.slots[c][j] < more.slots[c][k] {
      assert EntryOk(b, counts, positions, owners, c, j);
    }
    forall i: nat | i < |owners + [c]| && (owners + [c])[i] == c ensures i in more.slots[c] {
      if i < |owners| {
        assert i in b.slots[c];
      }
    }
  }

  // ---------------------------------------------------------------- gather

  /** The requests owned by chunks below `c` have their answers. */
  ghost predicate AnsweredTo(dest: seq<int>, column: seq<int>, positions: seq<nat>, owners: seq<nat>, c: nat) {
    && |owners| == |positions| <= |dest|
    && forall i :: 0 <= i < |positions| && owners[i] < c ==> positions[i] < |column| && dest[i] == column[positions[i]]
  }

  /** The distinct chunks below `c` that own a request. */
  ghost function TouchedBelow(owners: seq<nat>, c: nat): set<nat> {
    set i | 0 <= i < |owners| && owners[i] < c :: owners[i]
  }

  /**
    * `gatherColumn`. Any order, repeats, short and empty chunks: every output slot gets the requested row of the
    * decoded chunks' concatenation, `touched` counts the distinct chunks hit, and on an error nothing is written.
    */
  method GatherColumn(dest: array<int>, integers: bool, chunks: seq<Chunk>, positions: seq<nat>, scratch: Scratch)
    returns (touched: Result<nat, Error>)
    requires scratch.Valid() && dest !in scratch.From(0, false)
    requires ValidChunks(chunks) && |positions| <= dest.Length
    modifies scratch, scratch.From(0, false), dest
    ensures scratch.Evolved(0, false)
    ensures touched.Err? <==>
      |positions| > 0 && (!integers || exists i :: 0 <= i < |positions| && |WholeColumn(chunks)| <= positions[i])
    ensures touched.Err? ==> dest[..] == old(dest[..])
    ensures touched.Ok? ==> InRange(positions, |WholeColumn(chunks)|)
    ensures touched.Ok? ==> dest[..|positions|] == Pick(WholeColumn(chunks), positions)
    ensures touched.Ok? ==> touched.value == |ChunksHit(chunks, positions)|
    ensures forall i :: |positions| <= i < dest.Length ==> dest[i] == old(dest[i])
  {
    ColumnLength(chunks, |chunks|);
    if |positions| == 0 {
      return Ok(0);
    }
    if !integers {
      return Err(UnsupportedType);
    }
    var inRange, b, owners := Bucket(chunks, positions);
    if !inRange {
      return Err(OutOfRange);
    }
    var hits := GatherBuckets(dest, chunks, positions, b, owners, scratch);
    HitsAreOwners(chunks, positions, owners);
    touched := Ok(hits);
  }

  /** The chunks that hold a requested row. */
  ghost function ChunksHit(chunks: seq<Chunk>, positions: seq<nat>): set<nat> {
    set c: nat | c < |chunks| && Hit(Tuples(chunks), positions, c)
  }

  ghost predicate Hit(counts: seq<int>, positions: seq<nat>, c: nat) {
    exists i :: 0 <= i < |positions| && Owns(counts, c, positions[i])
  }

  lemma HitsAreOwners(chunks: seq<Chunk>, positions: seq<nat>, owners: seq<nat>)
    requires |owners| == |positions|
    requires forall i :: 0 <= i < |owners| ==> owners[i] < |chunks| && Owns(Tuples(chunks), owners[i], positions[i])
    ensures TouchedBelow(owners, |chunks|) == ChunksHit(chunks, positions)
  {
    forall c | c in ChunksHit(chunks, positions) ensures c in TouchedBelow(owners, |chunks|) {
      var i :| 0 <= i < |positions| && Owns(Tuples(chunks), c, positions[i]);
      OwnerUnique(Tuples(chunks), c, owners[i], positions[i]);
    }
  }

  method GatherBuckets(dest: array<int>, chunks: seq<Chunk>, positions: seq<nat>, b: Buckets, ghost owners: seq<nat>,
                       scratch: Scratch)
    returns (touched: nat)
    requires scratch.Valid() && dest !in scratch.From(0, false)
    requires ValidChunks(chunks) && |positions| == |owners| <= dest.Length
    requires Bucketed(b, Tuples(chunks), positions, owners)
    modifies scratch, scratch.From(0, false), dest
    ensures scratch.Evolved(0, false) && touched == |TouchedBelow(owners, |chunks|)|
    ensures AnsweredTo(dest[..], WholeColumn(chunks), positions, owners, |chunks|)
    ensures forall i :: |positions| <= i < dest.Length ==> dest[i] == old(dest[i])
  {
    touched := 0;
    var c := 0;
    while c < |chunks|
      invariant 0 <= c <= |chunks| && scratch.Evolved(0, false) && dest !in scratch.From(0, false)
      invariant touched == |TouchedBelow(owners, c)|
      invariant AnsweredTo(dest[..], WholeColumn(chunks), positions, owners, c)
      invariant forall i :: |positions| <= i < dest.Length ==> dest[i] == old(dest[i])
    {
      TouchedStep(b, Tuples(chunks), positions, owners, c);
      hide Bucketed, AnsweredTo, TouchedBelow;
      if |b.local[c]| != 0 {
        touched := touched + 1;
        GatherBucket(dest, chunks, positions, b, owners, c, scratch);
      } else {
        NothingAsked(dest[..], WholeColumn(chunks), b, Tuples(chunks), positions, owners, c);
      }
      c := c + 1;
    }
  }

  lemma NothingAsked(dest: seq<int>, column: seq<int>, b: Buckets, counts: seq<int>, positions: seq<nat>,
                     owners: seq<nat>, c: nat)
    requires Bucketed(b, counts, positions, owners) && c < |counts| && |b.local[c]| == 0
    requires AnsweredTo(dest, column, positions, owners, c)
    ensures AnsweredTo(dest, column, positions, owners, c + 1)
  {
    assert BucketOk(b, counts, positions, owners, c);
  }

  /** A chunk is counted exactly when its bucket is not empty. */
  lemma TouchedStep(b: Buckets, counts: seq<int>, positions: seq<nat>, owners: seq<nat>, c: nat)
    requires Bucketed(b, counts, positions, owners) && c < |counts|
    ensures |TouchedBelow(owners, c + 1)| == |TouchedBelow(owners, c)| + if |b.local[c]| != 0 then 1 else 0
  {
    assert BucketOk(b, counts, positions, owners, c);
    if |b.local[c]| != 0 {
      assert EntryOk(b, counts, positions, owners, c, 0);
      assert TouchedBelow(owners, c + 1) == TouchedBelow(owners, c) + {c};
    } else {
      assert TouchedBelow(owners, c + 1) == TouchedBelow(owners, c);
    }
  }

  /** The local positions lie inside the chunk, and no output slot is listed twice. */
  lemma BucketInside(b: Buckets, counts: seq<int>, positions: seq<nat>, owners: seq<nat>, c: nat)
    requires Bucketed(b, counts, positions, owners) && c < |counts| && 0 <= counts[c]
    ensures |b.local[c]| == |b.slots[c]| && InRange(b.local[c], counts[c])
    ensures forall k :: 0 <= k < |b.slots[c]| ==> b.slots[c][k] < |owners|
    ensures forall j, k :: 0 <= j < k < |b.slots[c]| ==> b.slots[c][j] != b.slots[c][k]
  {
    assert BucketOk(b, counts, positions, owners, c);
    forall j: nat | j < |b.slots[c]| ensures b.local[c][j] < counts[c] && b.slots[c][j] < |owners| {
      assert EntryOk(b, counts, positions, owners, c, j);
    }
  }

  /** After scattering a bucket's results its chunk's requests are answered, and earlier answers are kept. */
  lemma BucketAnswered(was: seq<int>, now: seq<int>, results: seq<int>, chunks: seq<Chunk>, b: Buckets,
                       positions: seq<nat>, owners: seq<nat>, c: nat)
    requires ValidChunks(chunks) && Bucketed(b, Tuples(chunks), positions, owners) && c < |chunks|
    requires AnsweredTo(was, WholeColumn(chunks), positions, owners, c) && |now| == |was|
    requires InRange(b.local[c], chunks[c].tuples) && results == Pick(Values(chunks[c]), b.local[c])
    requires |b.slots[c]| == |results| && forall k :: 0 <= k < |b.slots[c]| ==> b.slots[c][k] < |owners|
    requires forall k :: 0 <= k < |b.slots[c]| ==> now[b.slots[c][k]] == results[k]
    requires forall i :: 0 <= i < |now| && i !in b.slots[c] ==> now[i] == was[i]
    ensures AnsweredTo(now, WholeColumn(chunks), positions, owners, c + 1)
  {
    var counts, column := Tuples(chunks), WholeColumn(chunks);
    hide WellFormed, Decode, Bucketed, BucketOk, EntryOk, ColumnTo;
    forall i: nat | i < |positions| && owners[i] < c + 1
      ensures positions[i] < |column| && now[i] == column[positions[i]]
    {
      BucketFinds(chunks, b, positions, owners, c, i);
    }
  }

  /** A request of chunk `c` is listed with its local row, a request of an earlier chunk is not listed. */
  lemma BucketFinds(chunks: seq<Chunk>, b: Buckets, positions: seq<nat>, owners: seq<nat>, c: nat, i: nat)
    requires ValidChunks(chunks) && Bucketed(b, Tuples(chunks), positions, owners) && c < |chunks|
    requires i < |owners| && owners[i] <= c && |b.slots[c]| == |b.local[c]|
    ensures owners[i] < c ==> i !in b.slots[c]
    ensures owners[i] == c ==> exists j: nat ::
      (j < |b.slots[c]| && b.slots[c][j] == i
       && b.local[c][j] < chunks[c].tuples && positions[i] < |WholeColumn(chunks)|
       && WholeColumn(chunks)[positions[i]] == Values(chunks[c])[b.local[c][j]])
  {
    hide WellFormed, Decode, ColumnTo, Values;
    var counts := Tuples(chunks);
    assert BucketOk(b, counts, positions, owners, c);
    if owners[i] == c {
      RowOfChunk(chunks, |chunks|, c, positions[i]);
      var j: nat :| j < |b.slots[c]| && b.slots[c][j] == i;
      assert EntryOk(b, counts, positions, owners, c, j);
    } else {
      NotListed(b, counts, positions, owners, c, i);
    }
  }

  lemma NotListed(b: Buckets, counts: seq<int>, positions: seq<nat>, owners: seq<nat>, c: nat, i: nat)
    requires Bucketed(b, counts, positions, owners) && c < |counts| && i < |owners| && owners[i] != c
    ensures i !in b.slots[c]
  {
    assert BucketOk(b, counts, positions, owners, c);
    forall j: nat | j < |b.slots[c]| ensures b.slots[c][j] != i {
      assert EntryOk(b, counts, positions, owners, c, j);
    }
  }

  /** One chunk: gather its local rows, scatter them to the slots they came from. */
  method GatherBucket(dest: array<int>, chunks: seq<Chunk>, positions: seq<nat>, b: Buckets, ghost owners: seq<nat>,
                      c: nat, scratch: Scratch)
    requires scratch.Valid() && dest !in scratch.From(0, false)
    requires ValidChunks(chunks) && |positions| == |owners| <= dest.Length && c < |chunks|
    requires Bucketed(b, Tuples(chunks), positions, owners)
    requires AnsweredTo(dest[..], WholeColumn(chunks), positions, owners, c)
    modifies scratch, scratch.From(0, false), dest
    ensures scratch.Evolved(0, false) && AnsweredTo(dest[..], WholeColumn(chunks), positions, owners, c + 1)
    ensures forall i :: |positions| <= i < dest.Length ==> dest[i] == old(dest[i])
  {
    BucketInside(b, Tuples(chunks), positions, owners, c);
    var results := new int[|b.local[c]|];
    var chunk := chunks[c];
    hide Bucketed, AnsweredTo, Decode;
    ghost var was := dest[..];
    Gather(results, chunk.column, chunk.tuples, chunk.allNull, b.local[c], 0, scratch);
    Scatter(dest, b.slots[c], results);
    BucketAnswered(was, dest[..], results[..], chunks, b, positions, owners, c);
  }
}
