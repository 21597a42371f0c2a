/** The no-copy decoder of the raw string dictionary: the pool is copied once and every row gets a view into it. */
module StringViews {
  import opened Words
  import opened RunLength
  import opened Texts
  import opened WideStore
  import opened StringDictionary

  // ---------------------------------------------------------------- the stored dictionary

  /** Slot `k` holds the distance from the first slot to string `k`, the last slot the end; the strings follow. */
  ghost predicate Stored(slots: seq<int>, pool: seq<Cell>, dict: seq<Text>) {
    && |slots| == |dict| + 1 && pool == Joined(dict)
    && forall k: nat :: k <= |dict| ==> slots[k] == 4 * (|dict| + 1) + Offset(dict, k)
  }

  ghost predicate SlotsFilled(slots: seq<int>, dict: seq<Text>) {
    |slots| <= |dict| + 1 && forall k: nat :: k < |slots| ==> slots[k] == 4 * (|dict| + 1) + Offset(dict, k)
  }

  /** The raw branch of `compress`: slots and strings in one pass. */
  method StoreDictionary(dict: seq<Text>) returns (slots: seq<int>, pool: seq<Cell>)
    ensures Stored(slots, pool, dict)
  {
    slots, pool := [], [];
    var k, at := 0, 4 * (|dict| + 1);
    while k < |dict|
      invariant 0 <= k <= |dict| && |slots| == k && pool == JoinedTo(dict, k)
      invariant at == 4 * (|dict| + 1) + Offset(dict, k) && SlotsFilled(slots, dict)
    {
      SlotFilled(slots, dict, at);
      hide SlotsFilled;
      slots, pool := slots + [at], pool + dict[k];
      at := at + |dict[k]|;
      k := k + 1;
    }
    SlotFilled(slots, dict, at);
    slots := slots + [at];
  }

  lemma SlotFilled(slots: seq<int>, dict: seq<Text>, at: int)
    requires SlotsFilled(slots, dict) && |slots| <= |dict| && at == 4 * (|dict| + 1) + Offset(dict, |slots|)
    ensures SlotsFilled(slots + [at], dict)
  {
  }

  // ---------------------------------------------------------------- decoded layout

  /** Views in front of the pool: one per row and four spare ones. */
  function ViewCells(n: nat): nat { n + 4 }

  /** Byte offset of the pool: a view takes eight bytes. */
  function PoolStart(n: nat): nat { 8 * ViewCells(n) }

  /** `StringPointerArrayViewer::operator()`. */
  predicate Readable(memory: seq<Cell>, n: nat, view: Cell) {
    && view.View? && 0 <= view.length && PoolStart(n) <= view.start
    && ViewCells(n) + (view.start - PoolStart(n)) + view.length <= |memory|
  }

  function ReadView(memory: seq<Cell>, n: nat, view: Cell): Text
    requires Readable(memory, n, view)
  {
    var at := ViewCells(n) + (view.start - PoolStart(n));
    memory[at..at + view.length]
  }

  /** The view of dictionary entry `c`. */
  function ViewOf(dict: seq<Text>, c: nat, n: nat): Cell
    requires c < |dict|
  {
    View(|dict[c]|, PoolStart(n) + Offset(dict, c))
  }

  ghost predicate PoolPlaced(memory: seq<Cell>, dict: seq<Text>, n: nat) {
    && ViewCells(n) + |Joined(dict)| <= |memory|
    && memory[ViewCells(n)..ViewCells(n) + |Joined(dict)|] == Joined(dict)
  }

  /** The first `k` rows have the view of their dictionary entry. */
  ghost predicate ViewsTo(memory: seq<Cell>, dict: seq<Text>, codes: seq<int>, k: nat)
    requires ValidCodes(codes, dict) && k <= |codes|
  {
    |codes| <= |memory| && forall i :: 0 <= i < k ==> memory[i] == ViewOf(dict, codes[i], |codes|)
  }

  ghost predicate NoCopyDecoded(memory: seq<Cell>, dict: seq<Text>, codes: seq<int>)
    requires ValidCodes(codes, dict)
  {
    ViewsTo(memory, dict, codes, |codes|) && PoolPlaced(memory, dict, |codes|)
  }

  lemma ViewReads(memory: seq<Cell>, dict: seq<Text>, c: nat, n: nat)
    requires PoolPlaced(memory, dict, n) && c < |dict|
    ensures Readable(memory, n, ViewOf(dict, c, n)) && ReadView(memory, n, ViewOf(dict, c, n)) == dict[c]
  {
    var base := ViewCells(n);
    JoinedSlice(dict, c, |dict|);
    SubSlice(memory, base, base + |Joined(dict)|, base + Offset(dict, c), base + Offset(dict, c) + |dict[c]|);
  }

  /** Every row's view reads back that row's string. */
  lemma NoCopyReadBack(memory: seq<Cell>, dict: seq<Text>, codes: seq<int>, i: nat)
    requires ValidCodes(codes, dict) && NoCopyDecoded(memory, dict, codes) && i < |codes|
    ensures Readable(memory, |codes|, memory[i])
    ensures ReadView(memory, |codes|, memory[i]) == RowTexts(dict, codes)[i]
  {
    ViewReads(memory, dict, codes[i], |codes|);
  }

  /** Both decoders show the same strings, row by row. */
  lemma CopyAndNoCopyAgree(copied: seq<Cell>, memory: seq<Cell>, dict: seq<Text>, codes: seq<int>, i: nat)
    requires ValidCodes(codes, dict) && NoCopyDecoded(memory, dict, codes) && Decoded(copied, RowTexts(dict, codes))
    requires i < |codes|
    ensures Readable(memory, |codes|, memory[i]) && copied[i].Slot? && copied[i + 1].Slot?
    ensures StringStart(|codes|) <= copied[i].offset <= copied[i + 1].offset
    ensures SlotCells(|codes|) + (copied[i + 1].offset - StringStart(|codes|)) <= |copied|
    ensures ReadView(memory, |codes|, memory[i]) == ReadSlot(copied, |codes|, i)
  {
    NoCopyReadBack(memory, dict, codes, i);
    ReadBack(copied, RowTexts(dict, codes), i);
  }

  // ---------------------------------------------------------------- views and pool

  /** The dictionary's views: lengths from neighbouring slots, offsets accumulated behind the row views. */
  method BuildViews(slots: seq<int>, pool: seq<Cell>, ghost dict: seq<Text>, n: nat)
    returns (views: array<Cell>, end: nat)
    requires Stored(slots, pool, dict) && PoolStart(n) + |pool| < TWO_32
    ensures fresh(views) && views.Length == |dict| && end == PoolStart(n) + |pool|
    ensures forall c: nat :: c < |dict| ==> views[c] == ViewOf(dict, c, n)
  {
    var codes := |slots| - 1;
    views := new Cell[codes](_ => Slot(0));
    end := PoolStart(n);
    var c := 0;
    while c < codes
      invariant 0 <= c <= codes && end == PoolStart(n) + Offset(dict, c)
      invariant forall k: nat :: k < c ==> views[k] == ViewOf(dict, k, n)
    {
      views[c] := View(slots[c + 1] - slots[c], end);
      end := end + (slots[c + 1] - slots[c]);
      c := c + 1;
    }
  }

  // ---------------------------------------------------------------- row views

  /** Cells from three behind the last row view on are as before. */
  twostate predicate PoolUntouched(memory: array<Cell>, n: nat)
    reads memory
  {
    forall i :: n + 3 <= i < memory.Length ==> memory[i] == old(memory[i])
  }

  /** Run-length encoded codes: each run is stored four views at a time and spills into the next one. */
  method StoreRunViews(memory: array<Cell>, views: array<Cell>, ghost dict: seq<Text>, values: seq<int>,
                       counts: seq<int>,
                       ghost codes: seq<int>)
    requires memory != views && views.Length == |dict|
    requires |values| == |counts| && Positive(counts) && ValidCodes(values, dict)
    requires ValidCodes(codes, dict) && codes == Expand(values, counts) && |codes| == Total(counts)
    requires |codes| + 3 <= memory.Length
    requires forall c: nat :: c < |dict| ==> views[c] == ViewOf(dict, c, |codes|)
    modifies memory
    ensures ViewsTo(memory[..], dict, codes, |codes|) && PoolUntouched(memory, |codes|)
  {
    hide ViewOf;
    ghost var n := |codes|;
    var at, run := 0, 0;
    while run < |counts|
      invariant 0 <= run <= |counts| && 0 <= at == Start(counts, run) && at <= n
      invariant ViewsTo(memory[..], dict, codes, at) && PoolUntouched(memory, n)
    {
      RunOfCodes(values, counts, codes, run);
      ghost var was := memory[..];
      StoreRun(memory, at, views[values[run]], counts[run], LANES_64);
      assert ViewsTo(was, dict, codes, at);
      at := at + counts[run];
      run := run + 1;
    }
  }

  lemma RunOfCodes(values: seq<int>, counts: seq<int>, codes: seq<int>, run: nat)
    requires |values| == |counts| && Positive(counts) && run < |counts| && codes == Expand(values, counts)
    requires |codes| == Total(counts)
    ensures 0 <= Start(counts, run) && Start(counts, run + 1) == Start(counts, run) + counts[run] <= Total(counts)
    ensures forall i :: Start(counts, run) <= i < Start(counts, run + 1) ==> codes[i] == values[run]
  {
    StartMonotone(counts, 0, run);
    StartMonotone(counts, run + 1, |counts|);
    forall i | Start(counts, run) <= i < Start(counts, run + 1) ensures codes[i] == values[run] {
      ExpandAt(values, counts, |counts|, run, i);
    }
  }

  /** Plain codes: sixteen rows at a time while a whole block is left, then row by row; no store leaves the rows. */
  method StoreCodeViews(memory: array<Cell>, views: array<Cell>, ghost dict: seq<Text>, codes: seq<int>)
    requires memory != views && views.Length == |dict| && ValidCodes(codes, dict) && |codes| + 3 <= memory.Length
    requires forall c: nat :: c < |dict| ==> views[c] == ViewOf(dict, c, |codes|)
    modifies memory
    ensures ViewsTo(memory[..], dict, codes, |codes|) && PoolUntouched(memory, |codes|)
  {
    hide ViewOf;
    var n, row := |codes|, 0;
    if 16 <= n {
      while row < n - 15
        invariant 0 <= row <= n && ViewsTo(memory[..], dict, codes, row) && PoolUntouched(memory, n)
      {
        ghost var was := memory[..];
        forall i | row <= i < row + 16 {
          memory[i] := views[codes[i]];
        }
        assert ViewsTo(was, dict, codes, row);
        row := row + 16;
      }
    }
    while row < n
      invariant 0 <= row <= n && ViewsTo(memory[..], dict, codes, row) && PoolUntouched(memory, n)
    {
      memory[row] := views[codes[row]];
      row := row + 1;
    }
  }

  // ---------------------------------------------------------------- decoder

  /** The decoded codes stream: runs when the RLE-optimised path is recorded, one code per row otherwise. */
  datatype Codes = Runs(values: seq<int>, counts: seq<int>) | Rows(codes: seq<int>)

  ghost predicate CodesOf(codes: Codes, dict: seq<Text>, rows: seq<int>) {
    ValidCodes(rows, dict) &&
    match codes
    case Runs(values, counts) =>
      && |values| == |counts| && Positive(counts) && ValidCodes(values, dict)
      && |rows| == Total(counts) && rows == Expand(values, counts)
    case Rows(cs) => cs == rows
  }

  /** `decompressNoCopy`, raw strings. */
  method DecompressNoCopy(memory: array<Cell>, slots: seq<int>, pool: seq<Cell>, ghost dict: seq<Text>, codes: Codes,
                          n: nat, ghost rows: seq<int>)
    requires Stored(slots, pool, dict) && CodesOf(codes, dict, rows) && n == |rows|
    requires ViewCells(n) + |pool| <= memory.Length && PoolStart(n) + |pool| < TWO_32
    modifies memory
    ensures NoCopyDecoded(memory[..], dict, rows)
  {
    var views, end := BuildViews(slots, pool, dict, n);
    hide Stored, ViewOf, ValidCodes;
    CopyFrom(memory, ViewCells(n), pool);
    ghost var placed := memory[..];
    match codes {
      case Runs(values, counts) => StoreRunViews(memory, views, dict, values, counts, rows);
      case Rows(cs) => StoreCodeViews(memory, views, dict, cs);
    }
    PoolStays(placed, memory[..], pool, slots, dict, n);
  }

  lemma PoolStays(placed: seq<Cell>, now: seq<Cell>, pool: seq<Cell>, slots: seq<int>, dict: seq<Text>, n: nat)
    requires Stored(slots, pool, dict) && |now| == |placed| && ViewCells(n) + |pool| <= |now|
    requires placed[ViewCells(n)..ViewCells(n) + |pool|] == pool
    requires forall i :: n + 3 <= i < |now| ==> now[i] == placed[i]
    ensures PoolPlaced(now, dict, n)
  {
    assert now[ViewCells(n)..ViewCells(n) + |pool|] == placed[ViewCells(n)..ViewCells(n) + |pool|];
  }

  // ---------------------------------------------------------------- allocation

  /** Bytes of the dictionary entries below `k` that are in use. */
  function UsedBytes(dict: seq<Text>, used: set<int>, k: nat): nat
    requires k <= |dict|
  {
    if k == 0 then 0 else UsedBytes(dict, used, k - 1) + if k - 1 in used then |dict[k - 1]| else 0
  }

  lemma {:induction false} UseOne(dict: seq<Text>, used: set<int>, c: nat, k: nat)
    requires c < |dict| && k <= |dict|
    ensures UsedBytes(dict, used + {c}, k) <= UsedBytes(dict, used, k) + if c < k then |dict[c]| else 0
  {
    if k > 0 {
      UseOne(dict, used, c, k - 1);
    }
  }

  lemma {:induction false} UseNone(dict: seq<Text>, k: nat)
    requires k <= |dict|
    ensures UsedBytes(dict, {}, k) == 0
  {
    if k > 0 {
      UseNone(dict, k - 1);
    }
  }

  function LiveCodes(codes: seq<int>, nulls: NullMap, k: nat): set<int>
    requires k <= |codes| && Covers(nulls, |codes|)
  {
    set i | 0 <= i < k && Live(nulls, i) :: codes[i]
  }

  /** Live rows carry their dictionary entry. */
  ghost predicate LiveRowsCarry(dict: seq<Text>, codes: seq<int>, src: seq<Text>, nulls: NullMap) {
    && |codes| == |src| && Covers(nulls, |src|)
    && forall i :: 0 <= i < |src| && Live(nulls, i) ==> 0 <= codes[i] < |dict| && dict[codes[i]] == src[i]
  }

  /** The entries that live rows use take no more bytes than the rows do. */
  lemma {:induction false} RowsPayForCodes(dict: seq<Text>, codes: seq<int>, src: seq<Text>, nulls: NullMap, k: nat)
    requires LiveRowsCarry(dict, codes, src, nulls) && k <= |codes|
    ensures UsedBytes(dict, LiveCodes(codes, nulls, k), |dict|) <= Offset(src, k)
  {
    if k == 0 {
      assert LiveCodes(codes, nulls, 0) == {};
      UseNone(dict, |dict|);
    } else {
      var before := LiveCodes(codes, nulls, k - 1);
      RowsPayForCodes(dict, codes, src, nulls, k - 1);
      if Live(nulls, k - 1) {
        assert LiveCodes(codes, nulls, k) == before + {codes[k - 1]};
        UseOne(dict, before, codes[k - 1], |dict|);
      } else {
        assert LiveCodes(codes, nulls, k) == before;
      }
    }
  }

  lemma {:induction false} AllUsed(dict: seq<Text>, used: set<int>, k: nat)
    requires k <= |dict| && forall c :: 0 <= c < k && |dict[c]| > 0 ==> c in used
    ensures UsedBytes(dict, used, k) == Offset(dict, k)
  {
    if k > 0 {
      AllUsed(dict, used, k - 1);
    }
  }

  /** `getDecompressedSizeNoCopy`: the recorded size counts slots, which are exchanged for views. */
  function NoCopySize(totalSize: int, n: nat): int { totalSize - 4 * (n + 1) + 8 * (n + 4) }

  /**
    * The allocation holds the views and the whole pool when every non-empty dictionary string is some live row's; what
    * null rows hold only makes it larger.
    */
  lemma PoolFits(dict: seq<Text>, codes: seq<int>, src: seq<Text>, nulls: NullMap)
    requires LiveRowsCarry(dict, codes, src, nulls)
    requires forall c :: 0 <= c < |dict| && |dict[c]| > 0 ==> c in LiveCodes(codes, nulls, |codes|)
    ensures PoolStart(|src|) + |Joined(dict)| <= NoCopySize(4 * (|src| + 1) + Offset(src, |src|), |src|)
  {
    RowsPayForCodes(dict, codes, src, nulls, |codes|);
    AllUsed(dict, LiveCodes(codes, nulls, |codes|), |dict|);
  }
}
