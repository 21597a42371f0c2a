/** Column part files: chunks behind a table of 16-aligned offsets, written with relative seeks. */
module PartFile {
  import opened Words

  /** A run of bytes; only the header fields look at their values. */
  type Bytes = seq<int>

  const ALIGNMENT: nat := 16
  const PART_LIMIT: nat := 16 * 1024 * 1024

  /** `Utils::alignBy`: clearing the low bits of `num + alignment - 1`. */
  function AlignBy(num: nat, alignment: nat): (aligned: nat)
    requires 1 <= alignment
    ensures num <= aligned
  {
    var raised := num + alignment - 1;
    raised - raised % alignment
  }

  /** The least multiple of the alignment that is not smaller. */
  lemma AlignByFacts(num: nat, alignment: nat)
    requires 1 <= alignment
    ensures AlignBy(num, alignment) < num + alignment && AlignBy(num, alignment) % alignment == 0
    ensures AlignBy(num, alignment) == num <==> num % alignment == 0
  {
    var raised := num + alignment - 1;
    var q := raised / alignment;
    assert AlignBy(num, alignment) == alignment * q by {
      assert raised == alignment * q + raised % alignment;
    }
    DivMod(0, alignment, q);
    AlignedStays(num, alignment);
  }

  /** A multiple stays where it is. */
  lemma AlignedStays(num: nat, alignment: nat)
    requires 1 <= alignment
    ensures num % alignment == 0 ==> AlignBy(num, alignment) == num
  {
    var q := num / alignment;
    assert num == alignment * q + num % alignment;
    DivMod(alignment - 1, alignment, q);
  }

  /** For the one alignment in use. */
  function Align(num: nat): (aligned: nat)
    ensures num <= aligned
  {
    var raised := num + ALIGNMENT - 1;
    raised - raised % ALIGNMENT
  }

  /** On machine words: clearing the low four bits leaves the remainder out. */
  lemma AlignMask(num: bv64)
    ensures ((num + 15) & !15) + (num + 15) % 16 == num + 15
  {
  }

  lemma AlignFacts(num: nat)
    ensures Align(num) == AlignBy(num, ALIGNMENT)
    ensures Align(num) < num + ALIGNMENT && Align(num) % ALIGNMENT == 0
    ensures Align(num) == num <==> num % ALIGNMENT == 0
  {
  }

  // ---------------------------------------------------------------- 32-bit fields

  function WriteU32(x: nat): (bytes: Bytes)
    requires x < TWO_32
    ensures |bytes| == 4 && forall i :: 0 <= i < 4 ==> 0 <= bytes[i] < 256
  {
    [x % 256, x / 256 % 256, x / 65536 % 256, x / 16777216]
  }

  function ReadU32(file: Bytes, at: nat): int
    requires at + 4 <= |file|
  {
    file[at] + 256 * file[at + 1] + 65536 * file[at + 2] + 16777216 * file[at + 3]
  }

  lemma U32RoundTrip(x: nat, file: Bytes, at: nat)
    requires x < TWO_32 && at + 4 <= |file| && file[at..at + 4] == WriteU32(x)
    ensures ReadU32(file, at) == x
  {
    var b := file[at..at + 4];
    assert file[at] == b[0] && file[at + 1] == b[1] && file[at + 2] == b[2] && file[at + 3] == b[3];
    DigitSum(x);
  }

  lemma DigitSum(x: nat)
    ensures x % 256 + 256 * (x / 256 % 256) + 65536 * (x / 65536 % 256) + 16777216 * (x / 16777216) == x
  {
    var a, b := x / 256, x / 65536;
    assert b == a / 256;
    assert x / 16777216 == b / 256;
  }

  // ---------------------------------------------------------------- layout

  function HeaderSize(n: nat): nat { 4 + 4 * n }

  /** Bytes of the first `k` chunks. */
  function SizeTo(chunks: seq<Bytes>, k: nat): (size: nat)
    requires k <= |chunks|
  {
    if k == 0 then 0 else SizeTo(chunks, k - 1) + |chunks[k - 1]|
  }

  function Size(chunks: seq<Bytes>): nat { SizeTo(chunks, |chunks|) }

  /** End of the header (`k == 0`) or of chunk `k - 1`, before padding. */
  function EndBefore(chunks: seq<Bytes>, k: nat): nat
    requires k <= |chunks|
  {
    if k == 0 then HeaderSize(|chunks|) else Align(EndBefore(chunks, k - 1)) + |chunks[k - 1]|
  }

  /** Where chunk `k` starts (for `k == |chunks|`, where another one would). */
  function OffsetOf(chunks: seq<Bytes>, k: nat): (offset: nat)
    requires k <= |chunks|
    ensures EndBefore(chunks, k) <= offset
  {
    Align(EndBefore(chunks, k))
  }

  ghost predicate Offsets(offsets: seq<nat>, chunks: seq<Bytes>, k: nat)
    requires k <= |chunks|
  {
    |offsets| == k && forall j: nat :: j < k ==> offsets[j] == OffsetOf(chunks, j) < TWO_32
  }

  ghost predicate Distances(diffs: seq<nat>, chunks: seq<Bytes>, k: nat)
    requires k <= |chunks|
  {
    |diffs| == k && forall j: nat :: j < k ==> diffs[j] == OffsetOf(chunks, j) - EndBefore(chunks, j)
  }

  lemma LayoutAdded(offsets: seq<nat>, diffs: seq<nat>, chunks: seq<Bytes>, k: nat)
    requires Bounded(chunks) && k < |chunks| && Offsets(offsets, chunks, k) && Distances(diffs, chunks, k)
    ensures Offsets(offsets + [OffsetOf(chunks, k)], chunks, k + 1)
    ensures Distances(diffs + [OffsetOf(chunks, k) - EndBefore(chunks, k)], chunks, k + 1)
  {
    hide OffsetOf, EndBefore;
    OffsetsFit(chunks, k);
  }

  /** The two walk in step: pad to the offset, then pass the chunk. */
  lemma LayoutStep(chunks: seq<Bytes>, k: nat)
    requires k <= |chunks|
    ensures EndBefore(chunks, 0) == HeaderSize(|chunks|) && OffsetOf(chunks, k) == Align(EndBefore(chunks, k))
    ensures k < |chunks| ==> EndBefore(chunks, k + 1) == OffsetOf(chunks, k) + |chunks[k]|
  {
  }

  lemma OffsetAligned(chunks: seq<Bytes>, k: nat)
    requires k <= |chunks|
    ensures OffsetOf(chunks, k) < EndBefore(chunks, k) + ALIGNMENT && OffsetOf(chunks, k) % ALIGNMENT == 0
    ensures OffsetOf(chunks, k) == EndBefore(chunks, k) <==> EndBefore(chunks, k) % ALIGNMENT == 0
  {
    AlignFacts(EndBefore(chunks, k));
  }

  /** Padding in front of the first `k` chunks. */
  function PaddingTo(chunks: seq<Bytes>, k: nat): nat
    requires k <= |chunks|
  {
    if k == 0 then 0 else PaddingTo(chunks, k - 1) + (OffsetOf(chunks, k - 1) - EndBefore(chunks, k - 1))
  }

  ghost predicate NonEmpty(chunks: seq<Bytes>) { forall k :: 0 <= k < |chunks| ==> 1 <= |chunks[k]| }

  /** What a part may hold: only what `canAdd` let in. */
  ghost predicate Bounded(chunks: seq<Bytes>) { NonEmpty(chunks) && Size(chunks) <= PART_LIMIT }

  lemma {:induction false} CountBySize(chunks: seq<Bytes>, k: nat)
    requires NonEmpty(chunks) && k <= |chunks|
    ensures k <= SizeTo(chunks, k)
  {
    if k > 0 {
      CountBySize(chunks, k - 1);
    }
  }

  lemma {:induction false} SizeMonotone(chunks: seq<Bytes>, j: nat, k: nat)
    requires j <= k <= |chunks|
    ensures SizeTo(chunks, j) <= SizeTo(chunks, k)
  {
    if j < k {
      SizeMonotone(chunks, j, k - 1);
    }
  }

  lemma {:induction false} EndBySize(chunks: seq<Bytes>, k: nat)
    requires k <= |chunks|
    ensures EndBefore(chunks, k) == HeaderSize(|chunks|) + SizeTo(chunks, k) + PaddingTo(chunks, k)
    ensures PaddingTo(chunks, k) <= k * (ALIGNMENT - 1)
  {
    hide OffsetOf, EndBefore;
    if k == 0 {
      LayoutStep(chunks, 0);
    } else {
      EndBySize(chunks, k - 1);
      LayoutStep(chunks, k - 1);
      OffsetAligned(chunks, k - 1);
    }
  }

  /** Under the part limit every offset fits 32 bits. */
  lemma OffsetsFit(chunks: seq<Bytes>, k: nat)
    requires Bounded(chunks) && k <= |chunks|
    ensures OffsetOf(chunks, k) < TWO_32
  {
    hide OffsetOf, EndBefore, PaddingTo;
    EndBySize(chunks, k);
    SizeMonotone(chunks, k, |chunks|);
    CountBySize(chunks, |chunks|);
    OffsetAligned(chunks, k);
  }

  /** Chunks lie behind the header and behind each other. */
  lemma {:induction false} OffsetsAscend(chunks: seq<Bytes>, j: nat, k: nat)
    requires j < k <= |chunks|
    ensures HeaderSize(|chunks|) <= OffsetOf(chunks, j)
    ensures OffsetOf(chunks, j) + |chunks[j]| <= EndBefore(chunks, k) <= OffsetOf(chunks, k)
    decreases k
  {
    hide OffsetOf, EndBefore;
    LayoutStep(chunks, k - 1);
    if j < k - 1 {
      OffsetsAscend(chunks, j, k - 1);
    } else if j > 0 {
      OffsetsAscend(chunks, j - 1, j);
    }
  }

  ghost predicate ChunkAt(file: Bytes, chunks: seq<Bytes>, j: nat)
    requires j < |chunks|
  {
    var at := OffsetOf(chunks, j);
    at + |chunks[j]| <= |file| && file[at..at + |chunks[j]|] == chunks[j]
  }

  /** What a part file promises a reader, for the first `k` chunks. */
  ghost predicate Placed(file: Bytes, chunks: seq<Bytes>, k: nat)
    requires k <= |chunks|
  {
    && EndBefore(chunks, k) <= |file|
    && forall j: nat :: j < k ==> ChunkAt(file, chunks, j)
  }

  /** The chunk table: the number of chunks, then the first `k` offsets. */
  ghost predicate Tabled(file: Bytes, chunks: seq<Bytes>, k: nat)
    requires k <= |chunks|
  {
    && HeaderSize(k) <= |file| && ReadU32(file, 0) == |chunks|
    && forall j: nat :: j < k ==> FieldAt(file, chunks, j)
  }

  ghost predicate FieldAt(file: Bytes, chunks: seq<Bytes>, j: nat)
    requires j < |chunks|
  {
    HeaderSize(j + 1) <= |file| && ReadU32(file, HeaderSize(j)) == OffsetOf(chunks, j)
  }

  /** `getChunkMetadata`: through the table to the chunk's bytes. */
  lemma ReadChunk(file: Bytes, chunks: seq<Bytes>, k: nat)
    requires Placed(file, chunks, |chunks|) && Tabled(file, chunks, |chunks|) && k < |chunks|
    ensures HeaderSize(k + 1) <= |file| && ReadU32(file, 0) == |chunks|
    ensures var at := ReadU32(file, HeaderSize(k));
      0 <= at && at % ALIGNMENT == 0 && at + |chunks[k]| <= |file| && file[at..at + |chunks[k]|] == chunks[k]
  {
    hide OffsetOf, EndBefore, ReadU32;
    assert ChunkAt(file, chunks, k) && FieldAt(file, chunks, k);
    OffsetAligned(chunks, k);
  }

  // ---------------------------------------------------------------- output stream

  /** `std::ofstream`: a cursor that may move past the end, where the next write fills the gap with zeros. */
  class OutputFile {
    var bytes: Bytes
    var at: nat

    constructor ()
      ensures bytes == [] && at == 0
    {
      bytes, at := [], 0;
    }

    method Seek(distance: nat)
      modifies this`at
      ensures at == old(at) + distance
    {
      at := at + distance;
    }

    /** At or behind the end: the gap is zero-filled, what was written before stays. */
    method Write(data: Bytes)
      requires |bytes| <= at
      modifies this
      ensures bytes == old(bytes) + Zeros(old(at) - |old(bytes)|) + data
      ensures at == |bytes| == old(at) + |data|
    {
      bytes := bytes + Zeros(at - |bytes|) + data;
      at := at + |data|;
    }
  }

  function Zeros(n: nat): (z: Bytes)
    ensures |z| == n && forall i :: 0 <= i < n ==> z[i] == 0
  {
    seq(n, _ => 0)
  }

  // ---------------------------------------------------------------- column part

  datatype Error = TooLarge

  class ColumnPart {
    var totalSize: nat
    var chunks: seq<Bytes>

    ghost predicate Valid()
      reads this
    {
      totalSize == Size(chunks) && Bounded(chunks)
    }

    constructor ()
      ensures Valid() && chunks == []
    {
      totalSize, chunks := 0, [];
    }

    /** A chunk above the limit is refused outright; otherwise the answer is whether the part stays within it. */
    method CanAdd(size: nat) returns (fits: Result<bool, Error>)
      requires Valid()
      ensures fits == if PART_LIMIT < size then Err(TooLarge) else Ok(Size(chunks) + size <= PART_LIMIT)
    {
      if PART_LIMIT < size {
        return Err(TooLarge);
      }
      return Ok(totalSize + size <= PART_LIMIT);
    }

    method AddCompressedChunk(chunk: Bytes)
      requires Valid() && 1 <= |chunk| && Size(chunks) + |chunk| <= PART_LIMIT
      modifies this
      ensures Valid() && chunks == old(chunks) + [chunk]
    {
      SizeOfPrefix(chunks, [chunk], |chunks|);
      totalSize := totalSize + |chunk|;
      chunks := chunks + [chunk];
    }

    /**
      * `writeToDisk`: table and chunks can be read back through the offsets; the file ends with the last chunk. The
      * returned count is what `bytes_written` says, which leaves the padding out.
      */
    method WriteToDisk() returns (file: Bytes, bytesWritten: nat)
      requires Valid()
      modifies this
      ensures Valid() && chunks == []
      ensures Placed(file, old(chunks), |old(chunks)|) && Tabled(file, old(chunks), |old(chunks)|)
      ensures |file| == EndBefore(old(chunks), |old(chunks)|)
      ensures bytesWritten == |file| - PaddingTo(old(chunks), |old(chunks)|) < TWO_32
    {
      var offsets, diffs := Layout(chunks);
      var out := new OutputFile();
      WriteTable(out, offsets, chunks);
      WriteChunks(out, diffs, chunks);
      file := out.bytes;
      bytesWritten := totalSize + 4 + 4 * |offsets|;
      EndBySize(chunks, |chunks|);
      CountBySize(chunks, |chunks|);
      totalSize, chunks := 0, [];
    }
  }

  /** The offsets pass of `writeToDisk`: absolute offsets for the table, distances for the seeks. */
  method Layout(chunks: seq<Bytes>) returns (offsets: seq<nat>, diffs: seq<nat>)
    requires Bounded(chunks)
    ensures |offsets| == |diffs| == |chunks|
    ensures Offsets(offsets, chunks, |chunks|)
    ensures Distances(diffs, chunks, |chunks|)
  {
    offsets, diffs := [], [];
    LayoutStep(chunks, 0);
    hide OffsetOf, EndBefore, SizeTo, Align, Bounded, Offsets, Distances;
    var current := HeaderSize(|chunks|);
    var aligned := Align(current);
    var k := 0;
    while k < |chunks|
      invariant 0 <= k <= |chunks| && |offsets| == |diffs| == k
      invariant current == EndBefore(chunks, k) && aligned == OffsetOf(chunks, k)
      invariant Offsets(offsets, chunks, k)
      invariant Distances(diffs, chunks, k)
    {
      LayoutAdded(offsets, diffs, chunks, k);
      LayoutStep(chunks, k);
      LayoutStep(chunks, k + 1);
      offsets, diffs := offsets + [aligned], diffs + [aligned - current];
      current := aligned + |chunks[k]|;
      aligned := Align(current);
      k := k + 1;
    }
  }

  lemma {:induction false} SizeOfPrefix(chunks: seq<Bytes>, more: seq<Bytes>, k: nat)
    requires k <= |chunks|
    ensures SizeTo(chunks + more, k) == SizeTo(chunks, k)
  {
    if k > 0 {
      SizeOfPrefix(chunks, more, k - 1);
    }
  }

  method WriteTable(out: OutputFile, offsets: seq<nat>, chunks: seq<Bytes>)
    requires out.bytes == [] && out.at == 0 && |offsets| == |chunks| && Bounded(chunks)
    requires Offsets(offsets, chunks, |chunks|)
    modifies out
    ensures Tabled(out.bytes, chunks, |chunks|) && out.at == |out.bytes| == HeaderSize(|chunks|)
  {
    CountBySize(chunks, |chunks|);
    out.Write(WriteU32(|chunks|));
    U32RoundTrip(|chunks|, out.bytes, 0);
    var k := 0;
    while k < |chunks|
      invariant 0 <= k <= |chunks| && out.at == |out.bytes| == HeaderSize(k)
      invariant Tabled(out.bytes, chunks, k)
    {
      ghost var was := out.bytes;
      out.Write(WriteU32(offsets[k]));
      EntryWritten(was, out.bytes, chunks, k);
      k := k + 1;
    }
  }

  lemma EntryWritten(was: Bytes, now: Bytes, chunks: seq<Bytes>, k: nat)
    requires k < |chunks| && Tabled(was, chunks, k) && |was| == HeaderSize(k) && OffsetOf(chunks, k) < TWO_32
    requires now == was + WriteU32(OffsetOf(chunks, k))
    ensures Tabled(now, chunks, k + 1)
  {
    hide OffsetOf, ReadU32, WriteU32;
    U32RoundTrip(OffsetOf(chunks, k), now, HeaderSize(k));
    forall j: nat | j < k ensures FieldAt(now, chunks, j) {
      assert FieldAt(was, chunks, j);
      FieldKept(was, now, HeaderSize(j));
    }
    FieldKept(was, now, 0);
  }

  method WriteChunks(out: OutputFile, diffs: seq<nat>, chunks: seq<Bytes>)
    requires |diffs| == |chunks| && out.at == |out.bytes| == HeaderSize(|chunks|)
    requires Tabled(out.bytes, chunks, |chunks|)
    requires Distances(diffs, chunks, |chunks|)
    modifies out
    ensures Placed(out.bytes, chunks, |chunks|) && Tabled(out.bytes, chunks, |chunks|)
    ensures |out.bytes| == EndBefore(chunks, |chunks|)
  {
    LayoutStep(chunks, 0);
    NothingPlaced(out.bytes, chunks);
    hide *;
    var k := 0;
    while k < |chunks|
      invariant 0 <= k <= |chunks| && out.at == |out.bytes| == EndBefore(chunks, k)
      invariant Placed(out.bytes, chunks, k) && Tabled(out.bytes, chunks, |chunks|)
    {
      WriteChunk(out, diffs[k], chunks, k);
      k := k + 1;
    }
  }

  /** Skip the padding, then write the chunk. */
  method WriteChunk(out: OutputFile, diff: nat, chunks: seq<Bytes>, k: nat)
    requires k < |chunks| && out.at == |out.bytes| == EndBefore(chunks, k)
    requires diff == OffsetOf(chunks, k) - EndBefore(chunks, k)
    requires Placed(out.bytes, chunks, k) && Tabled(out.bytes, chunks, |chunks|)
    modifies out
    ensures out.at == |out.bytes| == EndBefore(chunks, k + 1)
    ensures Placed(out.bytes, chunks, k + 1) && Tabled(out.bytes, chunks, |chunks|)
  {
    LayoutStep(chunks, k);
    hide Placed, Tabled, OffsetOf, EndBefore, Zeros;
    ghost var was := out.bytes;
    out.Seek(diff);
    out.Write(chunks[k]);
    ChunkWritten(was, out.bytes, chunks, k);
  }

  lemma NothingPlaced(file: Bytes, chunks: seq<Bytes>)
    requires EndBefore(chunks, 0) <= |file|
    ensures Placed(file, chunks, 0)
  {
  }

  /** A chunk behind the padding lands on its recorded offset and disturbs nothing in front of it. */
  lemma ChunkWritten(was: Bytes, now: Bytes, chunks: seq<Bytes>, k: nat)
    requires k < |chunks| && Placed(was, chunks, k) && Tabled(was, chunks, |chunks|) && |was| == EndBefore(chunks, k)
    requires now == was + Zeros(OffsetOf(chunks, k) - EndBefore(chunks, k)) + chunks[k]
    ensures Placed(now, chunks, k + 1) && Tabled(now, chunks, |chunks|)
  {
    hide OffsetOf, EndBefore, ReadU32;
    LayoutStep(chunks, k);
    LayoutStep(chunks, k + 1);
    forall j: nat | j < k + 1 ensures ChunkAt(now, chunks, j) {
      ChunkKept(was, now, chunks, k, j);
    }
    TableKept(was, now, chunks);
  }

  lemma TableKept(was: Bytes, now: Bytes, chunks: seq<Bytes>)
    requires Tabled(was, chunks, |chunks|) && |was| <= |now| && now[..|was|] == was
    ensures Tabled(now, chunks, |chunks|)
  {
    hide OffsetOf, ReadU32;
    forall j: nat | j < |chunks| ensures FieldAt(now, chunks, j) {
      assert FieldAt(was, chunks, j);
      FieldKept(was, now, HeaderSize(j));
    }
    FieldKept(was, now, 0);
  }

  lemma FieldKept(was: Bytes, now: Bytes, at: nat)
    requires at + 4 <= |was| <= |now| && now[..|was|] == was
    ensures ReadU32(now, at) == ReadU32(was, at)
  {
    assert forall i :: 0 <= i < |was| ==> now[..|was|][i] == now[i];
  }

  lemma ChunkKept(was: Bytes, now: Bytes, chunks: seq<Bytes>, k: nat, j: nat)
    requires j <= k < |chunks| && Placed(was, chunks, k) && |was| == EndBefore(chunks, k)
    requires now == was + Zeros(OffsetOf(chunks, k) - EndBefore(chunks, k)) + chunks[k]
    ensures ChunkAt(now, chunks, j)
  {
    hide OffsetOf, EndBefore;
    var at := OffsetOf(chunks, j);
    if j < k {
      assert ChunkAt(was, chunks, j);
      assert now[at..at + |chunks[j]|] == was[at..at + |chunks[j]|];
    } else {
      assert now[at..at + |chunks[j]|] == chunks[j];
    }
  }

  // ---------------------------------------------------------------- reported size

  /** The reported size is the file's size exactly when no chunk needs padding in front of it. */
  lemma {:induction false} ReportedSizeExact(chunks: seq<Bytes>)
    ensures PaddingTo(chunks, |chunks|) == 0 <==>
      |chunks| == 0 || (|chunks| % 4 == 3 && AllAligned(chunks, |chunks| - 1))
  {
    if |chunks| > 0 {
      NoPadding(chunks, |chunks|);
    }
  }

  lemma {:induction false} NoPadding(chunks: seq<Bytes>, k: nat)
    requires 1 <= k <= |chunks|
    ensures PaddingTo(chunks, k) == 0 <==> |chunks| % 4 == 3 && AllAligned(chunks, k - 1)
  {
    hide OffsetOf, EndBefore;
    LayoutStep(chunks, k - 1);
    OffsetAligned(chunks, k - 1);
    if k > 1 {
      NoPadding(chunks, k - 1);
      LayoutStep(chunks, k - 2);
      OffsetAligned(chunks, k - 2);
      AlignedSum(OffsetOf(chunks, k - 2), |chunks[k - 2]|);
    } else {
      assert PaddingTo(chunks, 0) == 0;
      HeaderAligned(|chunks|);
    }
  }

  ghost predicate AllAligned(chunks: seq<Bytes>, k: nat)
    requires k <= |chunks|
  {
    forall j :: 0 <= j < k ==> |chunks[j]| % ALIGNMENT == 0
  }

  lemma AlignedSum(offset: nat, size: nat)
    requires offset % ALIGNMENT == 0
    ensures (offset + size) % ALIGNMENT == 0 <==> size % ALIGNMENT == 0
  {
  }

  lemma HeaderAligned(n: nat)
    ensures HeaderSize(n) % ALIGNMENT == 0 <==> n % 4 == 3
  {
  }

  /** A single short chunk: the file is eight bytes longer than reported. */
  lemma ReportedSizeTooSmall()
    ensures PaddingTo([[7]], 1) == 8
  {
    assert EndBefore([[7]], 0) == 8;
  }

  // ---------------------------------------------------------------- packing

  function Flatten(parts: seq<seq<Bytes>>): seq<Bytes> {
    if |parts| == 0 then [] else Flatten(parts[..|parts| - 1]) + parts[|parts| - 1]
  }

  /** File `i` holds part `i`. */
  ghost predicate Written(files: seq<Bytes>, parts: seq<seq<Bytes>>) {
    && |files| == |parts|
    && forall i :: 0 <= i < |files| ==>
         1 <= |parts[i]| && Bounded(parts[i])
         && Placed(files[i], parts[i], |parts[i]|) && Tabled(files[i], parts[i], |parts[i]|)
  }

  /** A part is closed only when the next chunk does not fit; `current` is the part in progress. */
  ghost predicate Greedy(parts: seq<seq<Bytes>>, current: seq<Bytes>) {
    && (forall i :: 0 <= i < |parts| ==> parts[i] != [])
    && (forall i :: 0 <= i < |parts| - 1 ==> PART_LIMIT < Size(parts[i]) + |parts[i + 1][0]|)
    && (|parts| > 0 && current != [] ==> PART_LIMIT < Size(parts[|parts| - 1]) + |current[0]|)
  }

  lemma PartAdded(files: seq<Bytes>, parts: seq<seq<Bytes>>, file: Bytes, chunks: seq<Bytes>, next: Bytes)
    requires Written(files, parts) && Greedy(parts, chunks) && chunks != [] && Bounded(chunks)
    requires Placed(file, chunks, |chunks|) && Tabled(file, chunks, |chunks|)
    ensures Written(files + [file], parts + [chunks])
    ensures Flatten(parts + [chunks]) == Flatten(parts) + chunks
    ensures Greedy(parts + [chunks], []) && (PART_LIMIT < Size(chunks) + |next| ==> Greedy(parts + [chunks], [next]))
  {
    assert (parts + [chunks])[..|parts|] == parts;
  }

  lemma EmptyPart(chunks: seq<Bytes>)
    ensures chunks == [] ==> Size(chunks) == 0
  {
  }

  lemma NothingPacked()
    ensures Written([], []) && Greedy([], []) && Flatten([]) == []
  {
  }

  lemma GreedyGrows(parts: seq<seq<Bytes>>, current: seq<Bytes>, chunk: Bytes)
    ensures Greedy(parts, current) && current != [] ==> Greedy(parts, current + [chunk])
    ensures Greedy(parts, current) ==> Greedy(parts, [])
    ensures Greedy([], current) ==> Greedy([], current + [chunk])
  {
  }

  /** Closing a part: the file is written, the part is empty again. */
  method ClosePart(part: ColumnPart, files: seq<Bytes>, ghost parts: seq<seq<Bytes>>, ghost next: Bytes)
    returns (more: seq<Bytes>, ghost all: seq<seq<Bytes>>)
    requires part.Valid() && part.chunks != [] && Written(files, parts) && Greedy(parts, part.chunks)
    modifies part
    ensures part.Valid() && part.chunks == [] && |all| > 0
    ensures Written(more, all) && Flatten(all) == Flatten(parts) + old(part.chunks)
    ensures Greedy(all, []) && (PART_LIMIT < old(Size(part.chunks)) + |next| ==> Greedy(all, [next]))
  {
    hide Placed, Tabled, OffsetOf, EndBefore, SizeTo, Greedy, Written, Flatten;
    ghost var chunks := part.chunks;
    assert Bounded(chunks);
    var file, reported := part.WriteToDisk();
    PartAdded(files, parts, file, chunks, next);
    more, all := files + [file], parts + [chunks];
  }

  /** The part in progress continues the files written so far; only the very first part may be empty. */
  ghost predicate Packing(files: seq<Bytes>, parts: seq<seq<Bytes>>, current: seq<Bytes>) {
    Written(files, parts) && Greedy(parts, current) && (current == [] ==> parts == [])
  }

  /** One turn of the packing loop. */
  method PackChunk(part: ColumnPart, files: seq<Bytes>, ghost parts: seq<seq<Bytes>>, chunk: Bytes)
    returns (more: seq<Bytes>, ghost all: seq<seq<Bytes>>, ok: bool)
    requires part.Valid() && Packing(files, parts, part.chunks) && 1 <= |chunk|
    modifies part
    ensures part.Valid() && Packing(more, all, part.chunks) && (ok <==> |chunk| <= PART_LIMIT)
    ensures Flatten(all) + part.chunks == Flatten(parts) + old(part.chunks) + if ok then [chunk] else []
  {
    hide Placed, Tabled, OffsetOf, EndBefore, SizeTo, Bounded, Greedy, Written, Flatten;
    more, all, ok := files, parts, true;
    GreedyGrows(parts, part.chunks, chunk);
    var fits := part.CanAdd(|chunk|);
    if fits.Err? {
      ok := false;
      return;
    }
    EmptyPart(part.chunks);
    if !fits.value {
      more, all := ClosePart(part, files, parts, chunk);
      EmptyPart(part.chunks);
      assert part.chunks + [chunk] == [chunk];
    }
    part.AddCompressedChunk(chunk);
  }

  /** The first `k` chunks are in the files written so far or in the part in progress. */
  ghost predicate PackedTo(files: seq<Bytes>, parts: seq<seq<Bytes>>, current: seq<Bytes>, column: seq<Bytes>, k: nat)
    requires k <= |column|
  {
    && Packing(files, parts, current) && Flatten(parts) + current == column[..k]
    && forall j :: 0 <= j < k ==> |column[j]| <= PART_LIMIT
  }

  lemma PackedNext(files: seq<Bytes>, parts: seq<seq<Bytes>>, flat: seq<Bytes>, current: seq<Bytes>, column: seq<Bytes>,
                   k: nat, ok: bool)
    requires k < |column| && Packing(files, parts, current)
    requires flat == column[..k] && forall j :: 0 <= j < k ==> |column[j]| <= PART_LIMIT
    requires Flatten(parts) + current == flat + if ok then [column[k]] else []
    requires ok <==> |column[k]| <= PART_LIMIT
    ensures ok ==> PackedTo(files, parts, current, column, k + 1)
    ensures !ok ==> Written(files, parts) && Greedy(parts, [])
    ensures !ok ==> |Flatten(parts)| < |column| && Flatten(parts) == column[..|Flatten(parts)|]
  {
    hide Written, Greedy, Flatten;
    GreedyGrows(parts, current, []);
    assert column[..k] + [column[k]] == column[..k + 1];
    if !ok {
      assert Flatten(parts) + current == column[..k];
      assert Flatten(parts) == column[..k][..|Flatten(parts)|];
    }
  }

  /**
    * The packing loop of `csvtobtr`: greedy, in order. The part files concatenate to the chunk list; a chunk above the
    * limit stops the loop, and the chunks collected for the part in progress are not written.
    */
  method PackColumn(column: seq<Bytes>) returns (files: seq<Bytes>, ghost parts: seq<seq<Bytes>>, ok: bool)
    requires NonEmpty(column)
    ensures Written(files, parts) && Greedy(parts, [])
    ensures ok <==> forall k :: 0 <= k < |column| ==> |column[k]| <= PART_LIMIT
    ensures ok ==> Flatten(parts) == column
    ensures !ok ==> |Flatten(parts)| < |column| && Flatten(parts) == column[..|Flatten(parts)|]
  {
    NothingPacked();
    files, parts, ok := [], [], true;
    var part := new ColumnPart();
    hide Written, Greedy, Flatten, Packing, PackedTo, Bounded, SizeTo;
    var k := 0;
    NothingPackedTo(column);
    while k < |column|
      invariant 0 <= k <= |column| && part.Valid() && fresh(part) && PackedTo(files, parts, part.chunks, column, k)
    {
      PackedSoFar(files, parts, part.chunks, column, k);
      ghost var flat := Flatten(parts) + part.chunks;
      files, parts, ok := PackChunk(part, files, parts, column[k]);
      PackedNext(files, parts, flat, part.chunks, column, k, ok);
      if !ok {
        return;
      }
      k := k + 1;
    }
    PackedSoFar(files, parts, part.chunks, column, k);
    ok := true;
    if part.chunks != [] {
      files, parts := ClosePart(part, files, parts, []);
    } else {
      assert Flatten(parts) + [] == Flatten(parts);
    }
  }

  lemma NothingPackedTo(column: seq<Bytes>)
    ensures PackedTo([], [], [], column, 0)
  {
  }

  lemma PackedSoFar(files: seq<Bytes>, parts: seq<seq<Bytes>>, current: seq<Bytes>, column: seq<Bytes>, k: nat)
    requires k <= |column| && PackedTo(files, parts, current, column, k)
    ensures Packing(files, parts, current) && Flatten(parts) + current == column[..k]
    ensures Written(files, parts) && Greedy(parts, current) && Greedy(parts, [])
    ensures forall j :: 0 <= j < k ==> |column[j]| <= PART_LIMIT
    ensures k == |column| ==> column[..k] == column
  {
    GreedyGrows(parts, current, []);
  }
}
