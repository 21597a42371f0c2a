/**
  * Pseudodecimal encoding of doubles: a significand and a decimal exponent per row, with patches for the rest. Doubles
  * stay abstract; `Format` carries the floating-point operations the scheme performs on them.
  */
module Pseudodecimal {
  import opened Words
  import opened Bitmap
  import Packing = BitPacking

  const MAX_EXPONENT: int := 22
  const EXCEPTION: int := 23
  const BLOCK: nat := 4
  const DO_ITERATION: bv8 := 1
  const DO_UNROLL: bv8 := 2

  /**
    * `value(n, e)` is the product of `n` and the `e`-th exact fraction of ten, `candidate(d, e)` the rounded quotient
    * that is tried for exponent `e`, and `limit` the configured number of significand bits.
    */
  datatype Format<!D> = Format(value: (int, int) -> D, candidate: (D, int) -> nat, negativeZero: D -> bool, limit: nat)

  /** The significand for exponent `e` reproduces the double and is small enough. */
  predicate Fits<D(==)>(f: Format<D>, d: D, e: int) {
    var n := f.candidate(d, e);
    f.value(n, e) == d && Packing.BitsOf(n) <= f.limit
  }

  /** The smallest exponent from `e` on that fits, or the exception code. */
  function FirstFit<D(==)>(f: Format<D>, d: D, e: int): (r: int)
    requires 0 <= e <= EXCEPTION
    ensures e <= r <= EXCEPTION && (r < EXCEPTION ==> Fits(f, d, r)) && forall j :: e <= j < r ==> !Fits(f, d, j)
    decreases EXCEPTION - e
  {
    if e == EXCEPTION || Fits(f, d, e) then e else FirstFit(f, d, e + 1)
  }

  /** Negative zero compares equal to zero, so it is always an exception. */
  function ExponentOf<D(==)>(f: Format<D>, d: D): (r: int)
    ensures 0 <= r <= EXCEPTION && (r < EXCEPTION ==> Fits(f, d, r))
  {
    if f.negativeZero(d) then EXCEPTION else FirstFit(f, d, 0)
  }

  // ---------------------------------------------------------------- streams and the scalar decoder

  /** Exponents for every row; significands and patches for the rows that have them, in row order. */
  datatype Streams<D> = Streams(exponents: seq<int>, numbers: seq<int>, patches: seq<D>)

  /** Exceptions among the first `n` rows. */
  function Patched(exponents: seq<int>, n: nat): (p: nat)
    requires n <= |exponents|
    ensures p <= n
  {
    if n == 0 then 0 else Patched(exponents, n - 1) + if exponents[n - 1] == EXCEPTION then 1 else 0
  }

  lemma {:induction false} PatchedMonotone(exponents: seq<int>, m: nat, n: nat)
    requires m <= n <= |exponents|
    ensures Patched(exponents, m) <= Patched(exponents, n) && m - Patched(exponents, m) <= n - Patched(exponents, n)
    decreases n
  {
    if m < n {
      PatchedMonotone(exponents, m, n - 1);
    }
  }

  predicate Complete<D>(s: Streams<D>, n: nat) {
    && |s.exponents| == n && |s.patches| == Patched(s.exponents, n) && |s.numbers| == n - Patched(s.exponents, n)
    && forall i :: 0 <= i < n ==> 0 <= s.exponents[i] <= EXCEPTION
  }

  /** `exponent & decimal_index_mask`. */
  function Masked(exponent: int): int { exponent % 32 }

  /** Row `i` of the scalar loop, whose number and patch cursors are determined by the exceptions before the row. */
  function RowValue<D(==)>(f: Format<D>, s: Streams<D>, i: nat): D
    requires Complete(s, |s.exponents|) && i < |s.exponents|
  {
    var p := Patched(s.exponents, i);
    PatchedMonotone(s.exponents, i + 1, |s.exponents|);
    if s.exponents[i] == EXCEPTION then s.patches[p] else f.value(s.numbers[i - p], Masked(s.exponents[i]))
  }

  function ScalarDecode<D(==)>(f: Format<D>, s: Streams<D>): (out: seq<D>)
    requires Complete(s, |s.exponents|)
    ensures |out| == |s.exponents| && forall i :: 0 <= i < |out| ==> out[i] == RowValue(f, s, i)
  {
    seq(|s.exponents|, i requires 0 <= i < |s.exponents| => RowValue(f, s, i))
  }

  // ---------------------------------------------------------------- block decoder

  function BlockCount(n: nat): nat { (n + (BLOCK - 1)) / BLOCK }

  predicate ExceptionIn(exponents: seq<int>, from: nat, to: nat)
    requires to <= |exponents|
  {
    exists i :: from <= i < to && exponents[i] == EXCEPTION
  }

  /** Block `b` holds a row with the exception code. */
  predicate HasException(exponents: seq<int>, b: nat) {
    ExceptionIn(exponents, BLOCK * b, Min(BLOCK * b + BLOCK, |exponents|))
  }

  /** The bitmap lists exactly the blocks with an exception. */
  ghost predicate MarksExceptions(blocks: set<nat>, exponents: seq<int>) {
    forall b: nat :: b in blocks <==> b < BlockCount(|exponents|) && HasException(exponents, b)
  }

  /** `DecimalIterateParam` and the arrays its pointers walk over. */
  class Iteration<D(==)> {
    const f: Format<D>
    const streams: Streams<D>
    const dest: array<D>
    var nextBlock: nat
    var write: nat
    var exponentAt: nat
    var numberAt: nat
    var patchAt: nat

    constructor (f: Format<D>, streams: Streams<D>, dest: array<D>)
      requires Complete(streams, |streams.exponents|) && |streams.exponents| <= dest.Length
      ensures this.f == f && this.streams == streams && this.dest == dest && nextBlock == 0 && InStep()
    {
      this.f, this.streams, this.dest := f, streams, dest;
      nextBlock, write, exponentAt, numberAt, patchAt := 0, 0, 0, 0, 0;
    }

    ghost function Rows(): nat { |streams.exponents| }

    /** All four cursors stand at the same row, and everything before it is decoded. */
    ghost predicate Synced()
      reads this, dest
    {
      && Complete(streams, Rows()) && Rows() <= dest.Length && CursorsAt(write)
      && dest[..write] == ScalarDecode(f, streams)[..write]
    }

    /** That row is the first one of the next block. */
    ghost predicate InStep()
      reads this, dest
    {
      Synced() && write == Min(BLOCK * nextBlock, Rows())
    }

    ghost predicate CursorsAt(row: nat)
      reads this
    {
      && row <= Rows() && exponentAt == row
      && numberAt == row - Patched(streams.exponents, row) && patchAt == Patched(streams.exponents, row)
    }

    /** One iteration of the scalar loop. */
    method ScalarRow()
      requires Synced() && write < Rows()
      modifies this, dest
      ensures Synced() && write == old(write) + 1 && nextBlock == old(nextBlock)
      ensures forall i :: Rows() <= i < dest.Length ==> dest[i] == old(dest[i])
    {
      PatchedMonotone(streams.exponents, write + 1, Rows());
      hide Masked;
      ghost var expected := ScalarDecode(f, streams);
      assert expected[write] == RowValue(f, streams, write);
      var exponent := streams.exponents[exponentAt];
      exponentAt := exponentAt + 1;
      if exponent == EXCEPTION {
        dest[write] := streams.patches[patchAt];
        patchAt := patchAt + 1;
      } else {
        dest[write] := f.value(streams.numbers[numberAt], Masked(exponent));
        numberAt := numberAt + 1;
      }
      assert dest[..write + 1] == expected[..write + 1];
      write := write + 1;
    }

    /** `decompressExceptionBlock`: the scalar loop over one block, possibly short or past the end. */
    method ExceptionBlock()
      requires InStep()
      modifies this, dest
      ensures InStep() && nextBlock == old(nextBlock) + 1
      ensures forall i :: Rows() <= i < dest.Length ==> dest[i] == old(dest[i])
    {
      hide Complete, ScalarDecode;
      var row := nextBlock * BLOCK;
      var rowEnd := Min(row + BLOCK, |streams.exponents|);
      while row < rowEnd
        invariant Synced() && nextBlock == old(nextBlock)
        invariant if BLOCK * nextBlock <= Rows() then BLOCK * nextBlock <= row <= rowEnd && write == row
                  else row == BLOCK * nextBlock && write == Rows()
        invariant forall i :: Rows() <= i < dest.Length ==> dest[i] == old(dest[i])
      {
        ScalarRow();
        row := row + 1;
      }
      nextBlock := nextBlock + 1;
    }

    /** Blocks [from, to) are complete and free of exceptions. */
    ghost predicate Plain(from: nat, to: nat) {
      forall b: nat :: from <= b < to ==> BLOCK * b + BLOCK <= Rows() && !HasException(streams.exponents, b)
    }

    /** A row inside plain blocks needs no patch, and neither does any row between the first block and it. */
    lemma {:induction false} PlainRow(from: nat, to: nat, k: nat)
      requires Plain(from, to) && k < BLOCK * (to - from)
      ensures BLOCK * from + k < Rows() && streams.exponents[BLOCK * from + k] != EXCEPTION
      ensures Patched(streams.exponents, BLOCK * from + k) == Patched(streams.exponents, BLOCK * from)
      ensures Patched(streams.exponents, BLOCK * from + k + 1) == Patched(streams.exponents, BLOCK * from)
    {
      var i := BLOCK * from + k;
      var b := i / BLOCK;
      assert BLOCK * b <= i < BLOCK * b + BLOCK && from <= b < to;
      if k > 0 {
        PlainRow(from, to, k - 1);
      }
    }

    /** What the wide loads and products compute for row `k` of plain blocks. */
    lemma PlainRowValue(from: nat, to: nat, k: nat)
      requires Complete(streams, Rows()) && Plain(from, to) && k < BLOCK * (to - from)
      ensures BLOCK * from + k < Rows() && Patched(streams.exponents, BLOCK * from) <= BLOCK * from
      ensures BLOCK * from - Patched(streams.exponents, BLOCK * from) + k < |streams.numbers|
      ensures ScalarDecode(f, streams)[BLOCK * from + k]
           == f.value(streams.numbers[BLOCK * from - Patched(streams.exponents, BLOCK * from) + k],
                      streams.exponents[BLOCK * from + k])
    {
      PlainRow(from, to, k);
      PatchedMonotone(streams.exponents, BLOCK * from + k + 1, Rows());
    }

    /** The product a wide step stores in row `i`. */
    function Product(i: int): D
      reads this
      requires write <= i && numberAt + (i - write) < |streams.numbers|
      requires exponentAt + (i - write) < |streams.exponents|
    {
      f.value(streams.numbers[numberAt + (i - write)], streams.exponents[exponentAt + (i - write)])
    }

    predicate Loadable(rows: nat)
      reads this
    {
      write + rows <= dest.Length && numberAt + rows <= |streams.numbers| && exponentAt + rows <= |streams.exponents|
    }

    lemma PlainProducts(count: nat)
      requires InStep() && 1 <= count && Plain(nextBlock, nextBlock + count)
      ensures write == BLOCK * nextBlock && Loadable(BLOCK * count)
      ensures Patched(streams.exponents, write + BLOCK * count) == Patched(streams.exponents, write)
      ensures forall i :: write <= i < write + BLOCK * count ==> ScalarDecode(f, streams)[i] == Product(i)
    {
      var to := nextBlock + count;
      hide RowValue, ScalarDecode, HasException, Masked;
      PlainRow(nextBlock, to, BLOCK * count - 1);
      PlainRowValue(nextBlock, to, BLOCK * count - 1);
      forall i | write <= i < write + BLOCK * count ensures ScalarDecode(f, streams)[i] == Product(i) {
        PlainRowValue(nextBlock, to, i - write);
      }
    }

    /** `decompressAVXBlock1` (one block) and `decompressAVXBlock4` (four blocks): loads, products, stores, cursors. */
    method Blocks(count: nat)
      requires InStep() && 1 <= count && Plain(nextBlock, nextBlock + count)
      modifies this, dest
      ensures InStep() && nextBlock == old(nextBlock) + count
      ensures forall i :: Rows() <= i < dest.Length ==> dest[i] == old(dest[i])
    {
      var rows := BLOCK * count;
      PlainProducts(count);
      ghost var expected := ScalarDecode(f, streams);
      hide Patched, ScalarDecode, Plain;
      StoreProducts(rows);
      assert dest[..write + rows] == expected[..write + rows];
      write, exponentAt, numberAt := write + rows, exponentAt + rows, numberAt + rows;
      nextBlock := nextBlock + count;
    }

    method StoreProducts(rows: nat)
      requires Loadable(rows)
      modifies dest
      ensures forall i :: write <= i < write + rows ==> dest[i] == Product(i)
      ensures forall i :: 0 <= i < dest.Length && !(write <= i < write + rows) ==> dest[i] == old(dest[i])
    {
      forall i | write <= i < write + rows {
        dest[i] := Product(i);
      }
    }

    /** `decompressAVXBlock`. */
    method UpTo(limit: nat)
      requires InStep() && Plain(nextBlock, limit)
      modifies this, dest
      ensures InStep() && nextBlock == (if old(nextBlock) < limit then limit else old(nextBlock)) + 1
      ensures forall i :: Rows() <= i < dest.Length ==> dest[i] == old(dest[i])
    {
      while nextBlock < limit
        invariant InStep() && Plain(nextBlock, limit)
        invariant nextBlock == old(nextBlock) || old(nextBlock) < nextBlock <= limit
        invariant forall i :: Rows() <= i < dest.Length ==> dest[i] == old(dest[i])
      {
        Blocks(1);
      }
      ExceptionBlock();
    }

    /** `decompressAVXBlockUnroll`: four blocks at a time while they fit, then one by one. */
    method UnrolledUpTo(limit: nat)
      requires InStep() && Plain(nextBlock, limit)
      modifies this, dest
      ensures InStep() && nextBlock == (if old(nextBlock) < limit then limit else old(nextBlock)) + 1
      ensures forall i :: Rows() <= i < dest.Length ==> dest[i] == old(dest[i])
    {
      var unrollLimit := if limit < 3 then 0 else limit - 3;
      while nextBlock < unrollLimit
        invariant InStep() && Plain(nextBlock, limit)
        invariant nextBlock == old(nextBlock) || old(nextBlock) < nextBlock <= limit
        invariant forall i :: Rows() <= i < dest.Length ==> dest[i] == old(dest[i])
        decreases limit - nextBlock
      {
        Blocks(4);
      }
      while nextBlock < limit
        invariant InStep() && Plain(nextBlock, limit)
        invariant nextBlock == old(nextBlock) || old(nextBlock) < nextBlock <= limit
        invariant forall i :: Rows() <= i < dest.Length ==> dest[i] == old(dest[i])
      {
        Blocks(1);
      }
      ExceptionBlock();
    }
  }

  /** Between two listed exception blocks every block is plain. */
  lemma GapIsPlain<D>(it: Iteration<D>, blocks: set<nat>, k: nat, from: nat, to: nat)
    requires MarksExceptions(blocks, it.streams.exponents)
    requires var order := Ascending(blocks, BlockCount(it.Rows()));
      && k <= |order| && from == (if k == 0 then 0 else order[k - 1] + 1)
      && to == if k < |order| then order[k] else it.Rows() / BLOCK
    ensures it.Plain(from, to)
  {
    forall b: nat | from <= b < to ensures BLOCK * b + BLOCK <= it.Rows() && !HasException(it.streams.exponents, b) {
      assert BLOCK * (b + 1) <= it.Rows();
      NoneBetween(blocks, BlockCount(it.Rows()), k, b);
    }
  }

  /** The bitmap's iteration, then the remaining complete blocks and the short last one. */
  method IterateBlocks<D(==)>(it: Iteration<D>, blocks: set<nat>, unroll: bool)
    requires it.InStep() && it.nextBlock == 0 && MarksExceptions(blocks, it.streams.exponents)
    modifies it, it.dest
    ensures it.Synced() && it.write == it.Rows()
    ensures forall i :: it.Rows() <= i < it.dest.Length ==> it.dest[i] == old(it.dest[i])
  {
    hide MarksExceptions, it.Synced, it.Plain;
    var order := Ascending(blocks, BlockCount(|it.streams.exponents|));
    var k := 0;
    while k < |order|
      invariant 0 <= k <= |order| && it.InStep() && it.nextBlock == if k == 0 then 0 else order[k - 1] + 1
      invariant forall i :: it.Rows() <= i < it.dest.Length ==> it.dest[i] == old(it.dest[i])
    {
      GapIsPlain(it, blocks, k, it.nextBlock, order[k]);
      if k > 0 {
        AscendingDistinct(blocks, BlockCount(|it.streams.exponents|), k - 1, k);
      }
      if unroll {
        it.UnrolledUpTo(order[k]);
      } else {
        it.UpTo(order[k]);
      }
      k := k + 1;
    }
    var avxBlocks := |it.streams.exponents| / BLOCK;
    GapIsPlain(it, blocks, k, it.nextBlock, avxBlocks);
    if unroll {
      it.UnrolledUpTo(avxBlocks);
    } else {
      it.UpTo(avxBlocks);
    }
  }

  /** `Decimal::decompress`: whichever loop the flags select, the result is that of the scalar loop. */
  method Decompress<D(==)>(f: Format<D>, streams: Streams<D>, blocks: set<nat>, flags: bv8, dest: array<D>)
    requires Complete(streams, |streams.exponents|) && MarksExceptions(blocks, streams.exponents)
    requires |streams.exponents| <= dest.Length
    modifies dest
    ensures dest[..|streams.exponents|] == ScalarDecode(f, streams)
    ensures forall i :: |streams.exponents| <= i < dest.Length ==> dest[i] == old(dest[i])
  {
    var it := new Iteration(f, streams, dest);
    if flags & DO_ITERATION != 0 {
      IterateBlocks(it, blocks, flags & DO_UNROLL != 0);
    } else {
      while it.write < |streams.exponents|
        invariant it.Synced()
        invariant forall i :: it.Rows() <= i < dest.Length ==> dest[i] == old(dest[i])
      {
        it.ScalarRow();
      }
    }
  }

  // ---------------------------------------------------------------- encoder

  /** The streams the encoder has pushed after `n` rows. */
  ghost function StreamsTo<D>(f: Format<D>, src: seq<D>, n: nat): (s: Streams<D>)
    requires n <= |src|
    ensures |s.exponents| == n && forall i :: 0 <= i < n ==> s.exponents[i] == ExponentOf(f, src[i])
  {
    if n == 0 then Streams([], [], [])
    else Pushed(f, StreamsTo(f, src, n - 1), src[n - 1])
  }

  function Pushed<D(==)>(f: Format<D>, s: Streams<D>, d: D): Streams<D> {
    var e := ExponentOf(f, d);
    if e == EXCEPTION then Streams(s.exponents + [e], s.numbers, s.patches + [d])
    else Streams(s.exponents + [e], s.numbers + [f.candidate(d, e)], s.patches)
  }

  lemma {:induction false} PatchedOfPrefix(exponents: seq<int>, more: seq<int>, n: nat)
    requires n <= |exponents|
    ensures Patched(exponents + more, n) == Patched(exponents, n)
  {
    if n > 0 {
      PatchedOfPrefix(exponents, more, n - 1);
    }
  }

  lemma PushedRows<D>(f: Format<D>, s: Streams<D>, d: D, i: nat)
    requires Complete(s, |s.exponents|) && Complete(Pushed(f, s, d), |s.exponents| + 1) && i < |s.exponents|
    ensures RowValue(f, Pushed(f, s, d), i) == RowValue(f, s, i)
  {
    hide ExponentOf;
    PatchedOfPrefix(s.exponents, [ExponentOf(f, d)], i);
    PatchedMonotone(s.exponents, i + 1, |s.exponents|);
  }

  /** Pushing a row appends exactly that row to what the streams decode to. */
  lemma PushedDecodes<D>(f: Format<D>, s: Streams<D>, d: D)
    requires Complete(s, |s.exponents|)
    ensures Complete(Pushed(f, s, d), |s.exponents| + 1)
    ensures ScalarDecode(f, Pushed(f, s, d)) == ScalarDecode(f, s) + [d]
  {
    hide FirstFit;
    var n, t := |s.exponents|, Pushed(f, s, d);
    PatchedOfPrefix(s.exponents, [ExponentOf(f, d)], n);
    assert Complete(t, n + 1);
    assert RowValue(f, t, n) == d;
    hide RowValue, Patched, Pushed, Complete;
    forall i | 0 <= i < n ensures RowValue(f, t, i) == RowValue(f, s, i) {
      PushedRows(f, s, d, i);
    }
  }

  /** The encoder's streams decode to the input, bit for bit as far as the format's equality can tell. */
  lemma {:induction false} StreamsDecode<D>(f: Format<D>, src: seq<D>, n: nat)
    requires n <= |src|
    ensures Complete(StreamsTo(f, src, n), n) && ScalarDecode(f, StreamsTo(f, src, n)) == src[..n]
  {
    if n > 0 {
      StreamsDecode(f, src, n - 1);
      PushedDecodes(f, StreamsTo(f, src, n - 1), src[n - 1]);
      hide Complete, ScalarDecode, Pushed, RowValue;
      assert src[..n] == src[..n - 1] + [src[n - 1]];
    }
  }

  datatype EncodeResult<D> = GaveUp(afterSize: nat) | Done(streams: Streams<D>, blocks: set<nat>, flags: bv8)

  /** More than half of the rows are exceptions. */
  ghost predicate TooMany<D>(f: Format<D>, src: seq<D>) {
    Patched(StreamsTo(f, src, |src|).exponents, |src|) > |src| / 2
  }

  lemma {:induction false} PatchedSoFar<D>(f: Format<D>, src: seq<D>, k: nat, n: nat)
    requires k <= n <= |src|
    ensures Patched(StreamsTo(f, src, k).exponents, k) <= Patched(StreamsTo(f, src, n).exponents, n)
  {
    if k < n {
      PatchedSoFar(f, src, k, n - 1);
      var p := StreamsTo(f, src, n - 1);
      PatchedOfPrefix(p.exponents, [ExponentOf(f, src[n - 1])], n - 1);
    }
  }

  /** The conversion loop over exponents. */
  method Convert<D(==)>(f: Format<D>, d: D) returns (exponent: int, number: nat)
    ensures exponent == ExponentOf(f, d) && (exponent < EXCEPTION ==> number == f.candidate(d, exponent))
    ensures exponent < EXCEPTION ==>
      !f.negativeZero(d) && Fits(f, d, exponent) && forall e :: 0 <= e < exponent ==> !Fits(f, d, e)
    ensures exponent == EXCEPTION ==> f.negativeZero(d) || forall e :: 0 <= e <= MAX_EXPONENT ==> !Fits(f, d, e)
  {
    exponent, number := EXCEPTION, 0;
    if f.negativeZero(d) {
      return;
    }
    exponent := 0;
    while exponent <= MAX_EXPONENT
      invariant 0 <= exponent <= EXCEPTION && FirstFit(f, d, 0) == FirstFit(f, d, exponent)
    {
      number := f.candidate(d, exponent);
      if f.value(number, exponent) == d && Packing.BitsOf(number) <= f.limit {
        break;
      }
      exponent := exponent + 1;
    }
  }

  /**
    * `Decimal::compress`: gives up exactly when more than half of the rows are exceptions; otherwise the streams decode
    * to the input and the bitmap lists the blocks with exceptions. The flags only steer the decoder's choice of loop:
    * whether there is a block without exceptions, and whether there are four in a row. That the run counter behind them
    * is eight bits wide does not show.
    */
  method Encode<D(==)>(f: Format<D>, src: seq<D>, totalSize: nat) returns (r: EncodeResult<D>)
    requires f.limit <= 31
    ensures r.GaveUp? <==> TooMany(f, src)
    ensures r.GaveUp? ==> r.afterSize == U32(totalSize + 1000)
    ensures r.Done? ==>
      && r.streams == StreamsTo(f, src, |src|) && Complete(r.streams, |src|)
      && MarksExceptions(r.blocks, r.streams.exponents) && ScalarDecode(f, r.streams) == src
      && FlagsTell(r.flags, r.blocks, BlockCount(|src|))
      && forall i :: 0 <= i < |r.streams.numbers| ==> 0 <= r.streams.numbers[i] < 0x8000_0000
  {
    StreamsDecode(f, src, |src|);
    NumbersFit(f, src, |src|);
    assert src[..|src|] == src;
    hide ExponentOf, Patched, ScalarDecode, StreamsTo, Complete, MarksExceptions, TooMany, FlagsTell;
    var streams, blocks, flags, ok := EncodeBlocks(f, src);
    r := if ok then Done(streams, blocks, flags) else GaveUp(U32(totalSize + 1000));
  }

  /** The loop over the blocks. */
  method EncodeBlocks<D(==)>(f: Format<D>, src: seq<D>)
    returns (streams: Streams<D>, blocks: set<nat>, flags: bv8, ok: bool)
    ensures ok <==> !TooMany(f, src)
    ensures ok ==> streams == StreamsTo(f, src, |src|) && MarksExceptions(blocks, streams.exponents)
    ensures ok ==> FlagsTell(flags, blocks, BlockCount(|src|))
  {
    hide *;
    streams, blocks, flags, ok := Streams([], [], []), {}, 0, true;
    var exceptionCount: nat, runCount := 0, 0;
    NothingEncoded(f, src);
    NoFlags();
    var block := 0;
    while block < BlockCount(|src|)
      invariant 0 <= block <= BlockCount(|src|) && EncodedTo(f, src, block, streams, exceptionCount, blocks)
      invariant FlagsTo(blocks, block, flags, runCount) && ok
    {
      streams, exceptionCount, runCount, flags, blocks, ok :=
        EncodeNext(f, src, block, streams, exceptionCount, runCount, flags, blocks);
      if !ok {
        return;
      }
      block := block + 1;
    }
    AllEncoded(f, src, streams, exceptionCount, blocks);
    FlagsRead(blocks, BlockCount(|src|), flags, runCount);
  }

  /** What the encoder holds after the first blocks. */
  ghost predicate EncodedTo<D>(f: Format<D>, src: seq<D>, block: nat, streams: Streams<D>, exceptionCount: nat,
                               blocks: set<nat>)
  {
    && streams == StreamsTo(f, src, Min(BLOCK * block, |src|)) && MarksTo(blocks, streams.exponents, block)
    && exceptionCount == Patched(streams.exponents, |streams.exponents|) <= |src| / 2
  }

  lemma NothingEncoded<D>(f: Format<D>, src: seq<D>)
    ensures EncodedTo(f, src, 0, Streams([], [], []), 0, {})
  {
    NothingMarked();
  }

  lemma AllEncoded<D>(f: Format<D>, src: seq<D>, streams: Streams<D>, exceptionCount: nat, blocks: set<nat>)
    requires EncodedTo(f, src, BlockCount(|src|), streams, exceptionCount, blocks)
    ensures streams == StreamsTo(f, src, |src|) && !TooMany(f, src) && MarksExceptions(blocks, streams.exponents)
  {
    AllMarked(blocks, streams.exponents);
  }

  /** One block: its rows, and its bit or the run of blocks without exceptions, which is counted in eight bits. */
  method EncodeNext<D(==)>(f: Format<D>, src: seq<D>, block: nat, streams: Streams<D>, exceptionCount: nat,
                           runCount: nat,
                           flags: bv8, blocks: set<nat>)
    returns (more: Streams<D>, count: nat, run: nat, flagged: bv8, marked: set<nat>, ok: bool)
    requires block < BlockCount(|src|) && EncodedTo(f, src, block, streams, exceptionCount, blocks)
    requires FlagsTo(blocks, block, flags, runCount)
    ensures ok ==> EncodedTo(f, src, block + 1, more, count, marked) && FlagsTo(marked, block + 1, flagged, run)
    ensures !ok ==> TooMany(f, src)
  {
    hide ExponentOf, Patched, StreamsTo, MarksTo, HasException, TooMany, FlagsTo;
    run, flagged, marked := runCount, flags, blocks;
    var hasException;
    more, count, hasException, ok := EncodeBlock(f, src, block, streams, exceptionCount);
    if ok {
      MarksNext(blocks, streams.exponents, more.exponents, block);
      MarkedBelow(blocks, streams.exponents, block);
      run, flagged, marked := CountBlock(block, hasException, runCount, flags, blocks);
    }
  }

  method CountBlock(block: nat, hasException: bool, runCount: nat, flags: bv8, blocks: set<nat>)
    returns (run: nat, flagged: bv8, marked: set<nat>)
    requires FlagsTo(blocks, block, flags, runCount) && forall b: nat :: b in blocks ==> b < block
    ensures marked == (if hasException then blocks + {block} else blocks) && FlagsTo(marked, block + 1, flagged, run)
  {
    hide FlagsTo, WithFlags;
    FlagsNext(blocks, block, flags, runCount);
    run, flagged, marked := runCount, flags, blocks;
    if hasException {
      run, marked := 0, blocks + {block};
    } else {
      run := (runCount + 1) % 256;
      flagged := WithFlags(flags, run);
    }
  }

  /** The bitmap lists exactly the blocks below `upto` that hold an exception. */
  ghost predicate MarksTo(blocks: set<nat>, exponents: seq<int>, upto: nat) {
    forall b: nat :: b in blocks <==> b < upto && HasException(exponents, b)
  }

  lemma MarkedBelow(blocks: set<nat>, exponents: seq<int>, upto: nat)
    requires MarksTo(blocks, exponents, upto)
    ensures forall b: nat :: b in blocks ==> b < upto
  {
  }

  predicate FourPlain(blocks: set<nat>, b: nat) {
    b !in blocks && b + 1 !in blocks && b + 2 !in blocks && b + 3 !in blocks
  }

  /** The blocks without exceptions right before block `upto`. */
  ghost function PlainBefore(blocks: set<nat>, upto: nat): nat {
    if upto == 0 || upto - 1 in blocks then 0 else PlainBefore(blocks, upto - 1) + 1
  }

  lemma {:induction false} PlainStretch(blocks: set<nat>, upto: nat)
    ensures PlainBefore(blocks, upto) <= upto
    ensures forall b: nat :: upto - PlainBefore(blocks, upto) <= b < upto ==> b !in blocks
    ensures PlainBefore(blocks, upto) < upto ==> upto - 1 - PlainBefore(blocks, upto) in blocks
  {
    if upto != 0 && upto - 1 !in blocks {
      PlainStretch(blocks, upto - 1);
    }
  }

  lemma {:induction false} PlainIgnores(blocks: set<nat>, block: nat, upto: nat)
    requires upto <= block
    ensures PlainBefore(blocks + {block}, upto) == PlainBefore(blocks, upto)
  {
    if upto > 0 {
      PlainIgnores(blocks, block, upto - 1);
    }
  }

  /** What the flags and the eight-bit counter tell of the blocks below `upto`. */
  ghost predicate FlagsTo(blocks: set<nat>, upto: nat, flags: bv8, runCount: nat) {
    runCount == PlainBefore(blocks, upto) % 256 && FlagsTell(flags, blocks, upto)
  }

  ghost predicate FlagsTell(flags: bv8, blocks: set<nat>, upto: nat) {
    && (flags & DO_ITERATION != 0 <==> exists b: nat :: b < upto && b !in blocks)
    && (flags & DO_UNROLL != 0 <==> exists b: nat :: b + 4 <= upto && FourPlain(blocks, b))
  }

  lemma NoFlags()
    ensures FlagsTo({}, 0, 0, 0)
  {
  }

  lemma FlagsRead(blocks: set<nat>, upto: nat, flags: bv8, runCount: nat)
    requires FlagsTo(blocks, upto, flags, runCount)
    ensures FlagsTell(flags, blocks, upto)
  {
  }

  lemma FlagBits(flags: bv8, runCount: nat)
    ensures WithFlags(flags, runCount) & DO_ITERATION != 0
    ensures WithFlags(flags, runCount) & DO_UNROLL != 0 <==> flags & DO_UNROLL != 0 || 4 <= runCount
  {
  }

  /** Four plain blocks end right before `upto`. */
  lemma StretchOfFour(blocks: set<nat>, upto: nat)
    ensures 4 <= PlainBefore(blocks, upto) <==> 4 <= upto && FourPlain(blocks, upto - 4)
  {
    PlainStretch(blocks, upto);
  }

  lemma FlagsNext(blocks: set<nat>, block: nat, flags: bv8, runCount: nat)
    requires FlagsTo(blocks, block, flags, runCount) && forall b: nat :: b in blocks ==> b < block
    ensures var run := (runCount + 1) % 256;
      FlagsTo(blocks, block + 1, WithFlags(flags, run), run)
    ensures FlagsTo(blocks + {block}, block + 1, flags, 0)
  {
    PlainFlags(blocks, block, flags, runCount);
    MarkedFlags(blocks, block, flags, runCount);
  }

  lemma PlainFlags(blocks: set<nat>, block: nat, flags: bv8, runCount: nat)
    requires FlagsTo(blocks, block, flags, runCount) && block !in blocks
    ensures var run := (runCount + 1) % 256;
      FlagsTo(blocks, block + 1, WithFlags(flags, run), run)
  {
    var run := (runCount + 1) % 256;
    FlagBits(flags, run);
    StretchOfFour(blocks, block);
    StretchOfFour(blocks, block + 1);
    hide WithFlags, FourPlain;
    var before := exists b: nat :: b + 4 <= block && FourPlain(blocks, b);
    // the counter wraps only behind a stretch that has been noticed
    assert 4 <= PlainBefore(blocks, block) ==> before;
    assert PlainBefore(blocks, block + 1) == PlainBefore(blocks, block) + 1;
  }

  lemma MarkedFlags(blocks: set<nat>, block: nat, flags: bv8, runCount: nat)
    requires FlagsTo(blocks, block, flags, runCount)
    ensures FlagsTo(blocks + {block}, block + 1, flags, 0)
  {
    PlainIgnores(blocks, block, block);
    forall b: nat | b + 4 <= block + 1
      ensures FourPlain(blocks + {block}, b) <==> b + 4 <= block && FourPlain(blocks, b)
    {
    }
    forall b: nat | b < block + 1 ensures b !in blocks + {block} <==> b < block && b !in blocks {
    }
    assert PlainBefore(blocks + {block}, block + 1) == 0;
  }

  function WithFlags(flags: bv8, runCount: nat): bv8 {
    if runCount >= 4 then flags | DO_ITERATION | DO_UNROLL else flags | DO_ITERATION
  }

  lemma NothingMarked()
    ensures MarksTo({}, [], 0)
  {
  }

  lemma AllMarked(blocks: set<nat>, exponents: seq<int>)
    requires MarksTo(blocks, exponents, BlockCount(|exponents|))
    ensures MarksExceptions(blocks, exponents)
  {
  }

  lemma MarksNext(blocks: set<nat>, before: seq<int>, after: seq<int>, block: nat)
    requires before <= after && BLOCK * block <= |before| && MarksTo(blocks, before, block)
    ensures MarksTo(if HasException(after, block) then blocks + {block} else blocks, after, block + 1)
  {
    forall b: nat | b < block ensures HasException(before, b) == HasException(after, b) {
      assert BLOCK * b + BLOCK <= |before|;
      assert forall i :: BLOCK * b <= i < BLOCK * b + BLOCK ==> before[i] == after[i];
    }
  }

  method EncodeBlock<D(==)>(f: Format<D>, src: seq<D>, block: nat, streams: Streams<D>, exceptionCount: nat)
    returns (more: Streams<D>, count: nat, hasException: bool, ok: bool)
    requires block < BlockCount(|src|) && streams == StreamsTo(f, src, BLOCK * block)
    requires exceptionCount == Patched(streams.exponents, |streams.exponents|) <= |src| / 2
    ensures !ok ==> TooMany(f, src)
    ensures ok ==>
      && more == StreamsTo(f, src, Min(BLOCK * block + BLOCK, |src|)) && streams.exponents <= more.exponents
      && count == Patched(more.exponents, |more.exponents|) <= |src| / 2
      && (hasException <==> HasException(more.exponents, block))
  {
    hide ExponentOf, Patched, StreamsTo, ExceptionIn;
    NoRows(streams.exponents, BLOCK * block);
    more, count, hasException, ok := streams, exceptionCount, false, true;
    var row, rowEnd := BLOCK * block, Min(BLOCK * block + BLOCK, |src|);
    while row < rowEnd
      invariant BLOCK * block <= row <= rowEnd && more == StreamsTo(f, src, row) && streams.exponents <= more.exponents
      invariant count == Patched(more.exponents, row) <= |src| / 2
      invariant hasException <==> ExceptionIn(more.exponents, BLOCK * block, row)
    {
      var exception;
      ghost var before := more.exponents;
      more, exception := PushRow(f, src, row, more);
      OneMoreRow(before, more.exponents, BLOCK * block, row);
      if exception {
        hasException := true;
        count := count + 1;
        if |src| / 2 < count {
          ok := false;
          PatchedSoFar(f, src, row + 1, |src|);
          return;
        }
      }
      row := row + 1;
    }
  }

  lemma NoRows(exponents: seq<int>, at: nat)
    requires at <= |exponents|
    ensures !ExceptionIn(exponents, at, at)
  {
  }

  lemma OneMoreRow(before: seq<int>, after: seq<int>, from: nat, row: nat)
    requires |before| == row && |after| == row + 1 && before <= after && from <= row
    ensures ExceptionIn(after, from, row + 1) <==> ExceptionIn(before, from, row) || after[row] == EXCEPTION
  {
    assert forall i :: 0 <= i < row ==> before[i] == after[i];
  }

  method PushRow<D(==)>(f: Format<D>, src: seq<D>, row: nat, streams: Streams<D>)
    returns (more: Streams<D>, exception: bool)
    requires row < |src| && streams == StreamsTo(f, src, row)
    ensures more == StreamsTo(f, src, row + 1) && streams.exponents + [more.exponents[row]] == more.exponents
    ensures exception <==> more.exponents[row] == EXCEPTION
    ensures Patched(more.exponents, row + 1) == Patched(streams.exponents, row) + if exception then 1 else 0
  {
    hide ExponentOf;
    var exponent, number := Convert(f, src[row]);
    exception := exponent == EXCEPTION;
    more := if exception then Streams(streams.exponents + [exponent], streams.numbers, streams.patches + [src[row]])
            else Streams(streams.exponents + [exponent], streams.numbers + [number], streams.patches);
    PatchedOfPrefix(streams.exponents, [exponent], row);
  }

  /** Every significand fits a non-negative INTEGER. */
  lemma {:induction false} NumbersFit<D>(f: Format<D>, src: seq<D>, n: nat)
    requires n <= |src| && f.limit <= 31
    ensures forall i :: 0 <= i < |StreamsTo(f, src, n).numbers| ==> 0 <= StreamsTo(f, src, n).numbers[i] < 0x8000_0000
  {
    if n > 0 {
      NumbersFit(f, src, n - 1);
      var e := ExponentOf(f, src[n - 1]);
      if e != EXCEPTION {
        Packing.BitsSuffice(f.candidate(src[n - 1], e), 31);
        PowOf31();
      }
    }
  }

  lemma PowOf31()
    ensures Packing.Base(31) == 0x8000_0000
  {
    Packing.PowOf32();
    assert Packing.Pow(2, 32) == 2 * Packing.Pow(2, 31);
  }

  // ---------------------------------------------------------------- hot path

  /** The picker keeps a stream unless it is larger than the raw column. */
  predicate Replaced(afterSize: nat, totalSize: nat) { totalSize < afterSize }

  /** The size reported by an encoder that gave up is above the raw size exactly when the sum fits 32 bits. */
  lemma GiveUpIsReplaced(totalSize: nat)
    requires IsU32(totalSize)
    ensures Replaced(U32(totalSize + 1000), totalSize) <==> totalSize < TWO_32 - 1000
  {
  }

  datatype Stored<D> = Decimal(streams: Streams<D>, blocks: set<nat>, flags: bv8) | Raw(values: seq<D>) | Unfinished

  ghost predicate Restores<D>(f: Format<D>, stored: Stored<D>, src: seq<D>) {
    match stored
    case Decimal(streams, blocks, _) =>
      && Complete(streams, |streams.exponents|) && MarksExceptions(blocks, streams.exponents)
      && ScalarDecode(f, streams) == src
    case Raw(values) => values == src
    case Unfinished => false
  }

  /**
    * The double picker's tail with PSEUDODECIMAL preferred: what is stored restores the input, and an encoder that gave
    * up is replaced, unless the column is so large that its 32-bit size wraps when the penalty is added.
    */
  method CompressOnHotPath<D(==)>(f: Format<D>, src: seq<D>) returns (stored: Stored<D>)
    requires f.limit <= 31
    ensures Restores(f, stored, src) <==> !(TooMany(f, src) && TWO_32 - 1000 <= U32(8 * |src|))
  {
    hide TooMany, Complete, MarksExceptions, ScalarDecode;
    var totalSize := U32(8 * |src|);
    var r := Encode(f, src, totalSize);
    var afterSize: nat :| 0 <= afterSize;
    GiveUpIsReplaced(totalSize);
    if r.GaveUp? {
      afterSize := r.afterSize;
    }
    if Replaced(afterSize, totalSize) {
      stored := Raw(src);
    } else {
      stored := if r.Done? then Decimal(r.streams, r.blocks, r.flags) else Unfinished;
    }
  }

  // ---------------------------------------------------------------- failing columns

  lemma {:induction false} AllExceptions<D>(f: Format<D>, src: seq<D>, n: nat)
    requires n <= |src| && forall i :: 0 <= i < n ==> ExponentOf(f, src[i]) == EXCEPTION
    ensures Patched(StreamsTo(f, src, n).exponents, n) == n
  {
    if n > 0 {
      AllExceptions(f, src, n - 1);
      PatchedOfPrefix(StreamsTo(f, src, n - 1).exponents, [EXCEPTION], n - 1);
    }
  }

  /** The smallest raw size that loses its penalty. */
  lemma PenaltyWraps()
    ensures U32(TWO_32 - 1000 + 1000) == 0 && !Replaced(U32(TWO_32 - 1000 + 1000), TWO_32 - 1000)
  {
  }

  /** As many rows as that size has, all of them exceptions: the abandoned encode is stored and restores nothing. */
  lemma AbandonedButKept<D>(f: Format<D>, d: D)
    requires f.negativeZero(d)
    ensures var src := seq(0x1FFF_FF83, i => d);
      TooMany(f, src) && U32(8 * |src|) == TWO_32 - 1000 && !Restores(f, Unfinished, src)
  {
    var src := seq(0x1FFF_FF83, i => d);
    AllExceptions(f, src, |src|);
  }
}
