/** The block format of FastBinaryPacking<32>: headers of four widths, 32-value mini-blocks, random access to blocks. */
module BitPacking {
  import opened Words

  const MINI_BLOCK: nat := 32
  const BLOCK: nat := 128

  // ---------------------------------------------------------------- digits

  function Pow(b: nat, k: nat): nat { if k == 0 then 1 else b * Pow(b, k - 1) }

  /** Little-endian value of a digit string. */
  function FromDigits(ds: seq<nat>, b: nat): nat {
    if |ds| == 0 then 0 else ds[0] + b * FromDigits(ds[1..], b)
  }

  function ToDigits(n: nat, b: nat, k: nat): (ds: seq<nat>)
    requires 1 <= b
    ensures |ds| == k && forall i :: 0 <= i < k ==> ds[i] < b
  {
    if k == 0 then [] else [n % b] + ToDigits(n / b, b, k - 1)
  }

  predicate Below(ds: seq<nat>, b: nat) { forall i :: 0 <= i < |ds| ==> ds[i] < b }

  lemma {:induction false} DigitsRoundTrip(ds: seq<nat>, b: nat)
    requires 1 <= b && Below(ds, b)
    ensures ToDigits(FromDigits(ds, b), b, |ds|) == ds
  {
    if |ds| > 0 {
      DivMod(ds[0], b, FromDigits(ds[1..], b));
      DigitsRoundTrip(ds[1..], b);
      assert ds == [ds[0]] + ds[1..];
    }
  }

  lemma {:induction false} DigitsBound(ds: seq<nat>, b: nat)
    requires 1 <= b && Below(ds, b)
    ensures FromDigits(ds, b) < Pow(b, |ds|)
  {
    if |ds| > 0 {
      var rest, p := FromDigits(ds[1..], b), Pow(b, |ds| - 1);
      assert rest < p by { DigitsBound(ds[1..], b); }
      MulMonotone(b, rest + 1, p);
      assert b * (rest + 1) == b * rest + b;
      assert ds[0] < b;
    }
  }

  lemma {:induction false} NumberRoundTrip(n: nat, b: nat, k: nat)
    requires 1 <= b && n < Pow(b, k)
    ensures FromDigits(ToDigits(n, b, k), b) == n
    decreases k
  {
    if k > 0 {
      var d, q := SplitDigit(n, b, k);
      hide Pow, ToDigits, FromDigits;
      NumberRoundTrip(q, b, k - 1);
      FirstDigit(d, ToDigits(q, b, k - 1), b);
    }
  }

  lemma SplitDigit(n: nat, b: nat, k: nat) returns (d: nat, q: nat)
    requires 1 <= b && 1 <= k && n < Pow(b, k)
    ensures n == d + b * q && q < Pow(b, k - 1) && ToDigits(n, b, k) == [d] + ToDigits(q, b, k - 1)
  {
    d, q := n % b, n / b;
    var m := Pow(b, k - 1);
    assert Pow(b, k) == b * m;
    hide Pow;
    QuotientBelow(n, b, m);
  }

  lemma FirstDigit(d: nat, rest: seq<nat>, b: nat)
    ensures FromDigits([d] + rest, b) == d + b * FromDigits(rest, b)
  {
    assert ([d] + rest)[1..] == rest;
  }

  lemma QuotientBelow(n: nat, b: nat, m: nat)
    requires 1 <= b && n < b * m
    ensures n / b < m && n == n % b + b * (n / b)
  {
    MulMonotone(b, m, n / b);
  }

  lemma {:induction false} PowSum(b: nat, i: nat, j: nat)
    ensures Pow(b, i + j) == Pow(b, i) * Pow(b, j)
  {
    if i > 0 {
      PowSum(b, i - 1, j);
      assert Pow(b, i + j) == b * (Pow(b, i - 1) * Pow(b, j));
      assert b * (Pow(b, i - 1) * Pow(b, j)) == (b * Pow(b, i - 1)) * Pow(b, j);
    }
  }

  lemma {:induction false} PowPow(b: nat, i: nat, j: nat)
    ensures 0 <= i * j && Pow(Pow(b, i), j) == Pow(b, i * j)
  {
    if j > 0 {
      PowPow(b, i, j - 1);
      assert i * j == i + i * (j - 1);
      PowSum(b, i, i * (j - 1));
    }
  }

  lemma {:induction false} PowPositive(b: nat, k: nat)
    requires 1 <= b
    ensures 1 <= Pow(b, k)
  {
    if k > 0 {
      PowPositive(b, k - 1);
      assert b * Pow(b, k - 1) >= 1;
    }
  }

  // ---------------------------------------------------------------- mini-blocks

  function Base(width: nat): (b: nat)
    ensures 1 <= b
  {
    PowPositive(2, width);
    Pow(2, width)
  }

  /** `fastpack`: 32 values of `width` bits each, packed low bits first into `width` words. */
  function Pack(values: seq<nat>, width: nat): (words: seq<nat>)
    requires |values| == MINI_BLOCK
    ensures |words| == width
  {
    ToDigits(FromDigits(values, Base(width)), Base(32), width)
  }

  /** `fastunpack`. */
  function Unpack(words: seq<nat>, width: nat): (values: seq<nat>)
    requires |words| == width
    ensures |values| == MINI_BLOCK
  {
    ToDigits(FromDigits(words, Base(32)), Base(width), MINI_BLOCK)
  }

  lemma UnpackPack(values: seq<nat>, width: nat)
    requires |values| == MINI_BLOCK && Below(values, Base(width))
    ensures Unpack(Pack(values, width), width) == values
  {
    DigitsBound(values, Base(width));
    PowPow(2, width, MINI_BLOCK);
    PowPow(2, MINI_BLOCK, width);
    NumberRoundTrip(FromDigits(values, Base(width)), Base(32), width);
    DigitsRoundTrip(values, Base(width));
  }

  // ---------------------------------------------------------------- blocks

  /** Width of mini-block `i`, read from the block's header word. */
  function Width(header: nat, i: nat): nat
    requires i < 4
  {
    if i == 0 then header / 0x100_0000 % 0x100
    else if i == 1 then header / 0x1_0000 % 0x100
    else if i == 2 then header / 0x100 % 0x100
    else header % 0x100
  }

  function Header(w0: nat, w1: nat, w2: nat, w3: nat): nat {
    w0 * 0x100_0000 + w1 * 0x1_0000 + w2 * 0x100 + w3
  }

  lemma WidthOfHeader(w0: nat, w1: nat, w2: nat, w3: nat)
    requires w0 < 0x100 && w1 < 0x100 && w2 < 0x100 && w3 < 0x100
    ensures var h := Header(w0, w1, w2, w3);
      Width(h, 0) == w0 && Width(h, 1) == w1 && Width(h, 2) == w2 && Width(h, 3) == w3
  {
    var h := Header(w0, w1, w2, w3);
    assert h % 0x100 == w3 && h / 0x100 == w0 * 0x1_0000 + w1 * 0x100 + w2;
    assert h / 0x1_0000 == w0 * 0x100 + w1;
    assert h / 0x100_0000 == w0;
  }

  /** Offset of mini-block `i` from its block's header. */
  function MiniOffset(header: nat, i: nat): nat
    requires i <= 4
  {
    if i == 0 then 1 else MiniOffset(header, i - 1) + Width(header, i - 1)
  }

  function BlockLength(header: nat): nat { MiniOffset(header, 4) }

  /** `blocks` complete blocks are stored from word `at` on. */
  predicate HasBlocks(words: seq<nat>, at: nat, blocks: nat)
    decreases blocks
  {
    blocks == 0 ||
    (at < |words| && at + BlockLength(words[at]) <= |words|
     && HasBlocks(words, at + BlockLength(words[at]), blocks - 1))
  }

  /** The first `m` mini-blocks of the block at `at`. */
  function DecodeMinis(words: seq<nat>, at: nat, m: nat): (values: seq<nat>)
    requires m <= 4 && at < |words| && at + MiniOffset(words[at], m) <= |words|
    ensures |values| == MINI_BLOCK * m
  {
    if m == 0 then []
    else
      var from, w := at + MiniOffset(words[at], m - 1), Width(words[at], m - 1);
      DecodeMinis(words, at, m - 1) + Unpack(words[from..from + w], w)
  }

  /** Sequential decode: one block after the other. */
  function DecodeBlocks(words: seq<nat>, at: nat, blocks: nat): (values: seq<nat>)
    requires HasBlocks(words, at, blocks)
    ensures |values| == BLOCK * blocks
    decreases blocks
  {
    if blocks == 0 then []
    else DecodeMinis(words, at, 4) + DecodeBlocks(words, at + BlockLength(words[at]), blocks - 1)
  }

  /** Where block `b` starts after skipping `b` headers. */
  function Skip(words: seq<nat>, at: nat, b: nat): nat
    requires HasBlocks(words, at, b)
    decreases b
  {
    if b == 0 then at else Skip(words, at + BlockLength(words[at]), b - 1)
  }

  lemma {:induction false} FewerBlocks(words: seq<nat>, at: nat, blocks: nat, b: nat)
    requires HasBlocks(words, at, blocks) && b <= blocks
    ensures HasBlocks(words, at, b)
    decreases b
  {
    if b > 0 {
      FewerBlocks(words, at + BlockLength(words[at]), blocks - 1, b - 1);
    }
  }

  /** One more header is skipped at the end of the walk. */
  lemma {:induction false} SkipNext(words: seq<nat>, at: nat, b: nat)
    requires HasBlocks(words, at, b + 1)
    ensures HasBlocks(words, at, b)
    ensures var s := Skip(words, at, b);
      s < |words| && s + BlockLength(words[s]) <= |words| && Skip(words, at, b + 1) == s + BlockLength(words[s])
    decreases b
  {
    if b > 0 {
      SkipNext(words, at + BlockLength(words[at]), b - 1);
    }
  }

  /** Values [128b, 128b + 128). */
  function NthBlock(values: seq<nat>, b: nat): seq<nat>
    requires BLOCK * b + BLOCK <= |values|
  {
    values[BLOCK * b..BLOCK * b + BLOCK]
  }

  lemma BlockInside(words: seq<nat>, at: nat, blocks: nat, b: nat)
    requires HasBlocks(words, at, blocks) && b < blocks
    ensures BLOCK * b + BLOCK <= |DecodeBlocks(words, at, blocks)|
  {
  }

  /** Skipping `b` headers lands on the block that the sequential decode unpacks as values [128b, 128b + 128). */
  lemma {:induction false} SkipLandsOnBlock(words: seq<nat>, at: nat, blocks: nat, b: nat)
    requires HasBlocks(words, at, blocks) && b < blocks
    ensures HasBlocks(words, at, b) && HasBlocks(words, at, b + 1)
    ensures BLOCK * b + BLOCK <= |DecodeBlocks(words, at, blocks)|
    ensures var s := Skip(words, at, b);
      s < |words| && s + BlockLength(words[s]) <= |words|
      && NthBlock(DecodeBlocks(words, at, blocks), b) == DecodeMinis(words, s, 4)
    decreases b
  {
    hide BlockLength, MiniOffset, Width, DecodeMinis, DecodeBlocks, NthBlock;
    FewerBlocks(words, at, blocks, b);
    FewerBlocks(words, at, blocks, b + 1);
    BlockInside(words, at, blocks, b);
    if b == 0 {
      FirstBlock(words, at, blocks);
    } else {
      LaterBlock(words, at, blocks, b);
      SkipLandsOnBlock(words, at + BlockLength(words[at]), blocks - 1, b - 1);
    }
  }

  lemma FirstBlock(words: seq<nat>, at: nat, blocks: nat)
    requires HasBlocks(words, at, blocks) && 1 <= blocks
    ensures at < |words| && at + BlockLength(words[at]) <= |words|
    ensures BLOCK * 0 + BLOCK <= |DecodeBlocks(words, at, blocks)|
    ensures NthBlock(DecodeBlocks(words, at, blocks), 0) == DecodeMinis(words, at, 4)
  {
  }

  /** Seen from the second block on, block `b` is block `b - 1`. */
  lemma LaterBlock(words: seq<nat>, at: nat, blocks: nat, b: nat)
    requires HasBlocks(words, at, blocks) && 1 <= b < blocks
    ensures at < |words| && HasBlocks(words, at + BlockLength(words[at]), blocks - 1)
    ensures BLOCK * b + BLOCK <= |DecodeBlocks(words, at, blocks)|
    ensures BLOCK * (b - 1) + BLOCK <= |DecodeBlocks(words, at + BlockLength(words[at]), blocks - 1)|
    ensures NthBlock(DecodeBlocks(words, at, blocks), b) ==
      NthBlock(DecodeBlocks(words, at + BlockLength(words[at]), blocks - 1), b - 1)
  {
    var rest := DecodeBlocks(words, at + BlockLength(words[at]), blocks - 1);
    SliceBehind(DecodeMinis(words, at, 4), rest, BLOCK * (b - 1), BLOCK);
  }

  lemma SliceBehind(head: seq<nat>, rest: seq<nat>, from: nat, n: nat)
    requires from + n <= |rest|
    ensures (head + rest)[|head| + from..|head| + from + n] == rest[from..from + n]
  {
  }

  lemma BlockLengthSum(header: nat)
    ensures BlockLength(header) == 1 + Width(header, 0) + Width(header, 1) + Width(header, 2) + Width(header, 3)
  {
    hide Width;
    assert MiniOffset(header, 1) == MiniOffset(header, 0) + Width(header, 0);
    assert MiniOffset(header, 2) == MiniOffset(header, 1) + Width(header, 1);
    assert MiniOffset(header, 3) == MiniOffset(header, 2) + Width(header, 2);
  }

  /** `LemiereImpl::decompressBlock`: walks `b` headers, then unpacks one block into `dest`. */
  method DecompressBlock(words: seq<nat>, b: nat, ghost blocks: nat, dest: array<int>)
    requires HasBlocks(words, 1, blocks) && b < blocks && BLOCK <= dest.Length
    modifies dest
    ensures dest[..BLOCK] == DecodeBlocks(words, 1, blocks)[BLOCK * b..BLOCK * b + BLOCK]
  {
    hide BlockLength, DecodeMinis, DecodeBlocks;
    var at := SeekBlock(words, b, blocks);
    SkipLandsOnBlock(words, 1, blocks, b);
    UnpackBlock(words, at, dest);
  }

  method SeekBlock(words: seq<nat>, b: nat, ghost blocks: nat) returns (at: nat)
    requires HasBlocks(words, 1, blocks) && b < blocks
    ensures HasBlocks(words, 1, b) && at == Skip(words, 1, b)
  {
    hide BlockLength, Width;
    FewerBlocks(words, 1, blocks, b);
    at := 1;
    var k := 0;
    while k < b
      invariant 0 <= k <= b && HasBlocks(words, 1, k) && at == Skip(words, 1, k)
    {
      FewerBlocks(words, 1, blocks, k + 1);
      SkipNext(words, 1, k);
      BlockLengthSum(words[at]);
      at := at + 1 + Width(words[at], 0) + Width(words[at], 1) + Width(words[at], 2) + Width(words[at], 3);
      k := k + 1;
    }
  }

  method UnpackBlock(words: seq<nat>, at: nat, dest: array<int>)
    requires at < |words| && at + BlockLength(words[at]) <= |words| && BLOCK <= dest.Length
    modifies dest
    ensures dest[..BLOCK] == DecodeMinis(words, at, 4)
  {
    hide Width, Unpack;
    var header, from, i := words[at], at + 1, 0;
    while i < 4
      invariant 0 <= i <= 4 && from == at + MiniOffset(header, i) && from <= |words|
      invariant dest[..MINI_BLOCK * i] == DecodeMinis(words, at, i)
    {
      MiniOffsetsRise(header, i + 1, 4);
      var w := Width(header, i);
      var unpacked := Unpack(words[from..from + w], w);
      ghost var done := dest[..MINI_BLOCK * i];
      forall j | 0 <= j < MINI_BLOCK {
        dest[MINI_BLOCK * i + j] := unpacked[j];
      }
      assert dest[..MINI_BLOCK * (i + 1)] == done + unpacked;
      from := from + w;
      i := i + 1;
    }
  }

  lemma {:induction false} MiniOffsetsRise(header: nat, i: nat, j: nat)
    requires i <= j <= 4
    ensures MiniOffset(header, i) <= MiniOffset(header, j)
  {
    if i < j {
      MiniOffsetsRise(header, i, j - 1);
    }
  }

  // ---------------------------------------------------------------- encoder

  function BitsOf(v: nat): nat { if v == 0 then 0 else 1 + BitsOf(v / 2) }

  lemma {:induction false} BitsSuffice(v: nat, width: nat)
    requires BitsOf(v) <= width
    ensures v < Base(width)
  {
    if v > 0 {
      BitsSuffice(v / 2, width - 1);
    } else {
      PowPositive(2, width);
    }
  }

  lemma {:induction false} BitsBound(v: nat, width: nat)
    requires v < Base(width)
    ensures BitsOf(v) <= width
  {
    if v > 0 && width > 0 {
      BitsBound(v / 2, width - 1);
    }
  }

  /** `maxbits`: the widest value of a mini-block decides its width. */
  function MaxBits(values: seq<nat>): (w: nat)
    ensures forall i :: 0 <= i < |values| ==> BitsOf(values[i]) <= w
    ensures w > 0 ==> exists i :: 0 <= i < |values| && BitsOf(values[i]) == w
  {
    if |values| == 0 then 0
    else
      var init, last := values[..|values| - 1], values[|values| - 1];
      assert values == init + [last] && forall i :: 0 <= i < |init| ==> values[i] == init[i];
      var rest, b := MaxBits(init), BitsOf(last);
      if rest < b then b else rest
  }

  function Mini(block: seq<nat>, i: nat): (mini: seq<nat>)
    requires |block| == BLOCK && i < 4
    ensures |mini| == MINI_BLOCK
  {
    block[MINI_BLOCK * i..MINI_BLOCK * (i + 1)]
  }

  function BlockHeader(block: seq<nat>): nat
    requires |block| == BLOCK
  {
    Header(MaxBits(Mini(block, 0)), MaxBits(Mini(block, 1)), MaxBits(Mini(block, 2)), MaxBits(Mini(block, 3)))
  }

  /** The header and the first `m` packed mini-blocks. */
  function EncodeMinis(block: seq<nat>, m: nat): seq<nat>
    requires |block| == BLOCK && m <= 4
  {
    if m == 0 then [BlockHeader(block)]
    else EncodeMinis(block, m - 1) + Pack(Mini(block, m - 1), MaxBits(Mini(block, m - 1)))
  }

  function EncodeBlocks(values: seq<nat>): seq<nat>
    requires |values| % BLOCK == 0
  {
    if |values| == 0 then [] else EncodeMinis(values[..BLOCK], 4) + EncodeBlocks(values[BLOCK..])
  }

  lemma MiniWidths(block: seq<nat>)
    requires |block| == BLOCK && Below(block, TWO_32)
    ensures forall i :: 0 <= i < 4 ==> Width(BlockHeader(block), i) == MaxBits(Mini(block, i)) <= 32
  {
    forall i: nat | i < 4 ensures MaxBits(Mini(block, i)) <= 32 {
      var mini := Mini(block, i);
      forall j | 0 <= j < |mini| ensures BitsOf(mini[j]) <= 32 {
        assert mini[j] == block[MINI_BLOCK * i + j];
        PowOf32();
        BitsBound(mini[j], 32);
      }
    }
    WidthOfHeader(MaxBits(Mini(block, 0)), MaxBits(Mini(block, 1)), MaxBits(Mini(block, 2)), MaxBits(Mini(block, 3)));
  }

  lemma PowOf32()
    ensures Pow(2, 32) == TWO_32
  {
    PowSum(2, 16, 16);
    PowSum(2, 8, 8);
    assert Pow(2, 8) == 256;
  }

  lemma {:induction false} EncodedMinis(block: seq<nat>, m: nat)
    requires |block| == BLOCK && m <= 4 && Below(block, TWO_32)
    ensures |EncodeMinis(block, m)| == MiniOffset(BlockHeader(block), m)
    ensures 0 < |EncodeMinis(block, m)| && EncodeMinis(block, m)[0] == BlockHeader(block)
  {
    hide Width, Pack, MaxBits, BlockHeader, Mini;
    MiniWidths(block);
    if m > 0 {
      EncodedMinis(block, m - 1);
    }
  }

  /** The words from `at` on begin with `stored`. */
  ghost predicate StoredAt(words: seq<nat>, at: nat, stored: seq<nat>) {
    at + |stored| <= |words| && words[at..at + |stored|] == stored
  }

  lemma StoredHead(words: seq<nat>, at: nat, stored: seq<nat>)
    requires StoredAt(words, at, stored) && 0 < |stored|
    ensures at < |words| && words[at] == stored[0]
  {
    assert words[at] == words[at..at + |stored|][0];
  }

  lemma StoredParts(words: seq<nat>, at: nat, first: seq<nat>, second: seq<nat>)
    requires StoredAt(words, at, first + second)
    ensures StoredAt(words, at, first) && StoredAt(words, at + |first|, second)
  {
    var both := first + second;
    assert words[at..at + |first|] == both[..|first|];
    assert words[at + |first|..at + |both|] == both[|first|..];
  }

  lemma MiniUnpacks(block: seq<nat>, i: nat)
    requires |block| == BLOCK && i < 4
    ensures Unpack(Pack(Mini(block, i), MaxBits(Mini(block, i))), MaxBits(Mini(block, i))) == Mini(block, i)
  {
    var mini, w := Mini(block, i), MaxBits(Mini(block, i));
    forall j | 0 <= j < |mini| ensures mini[j] < Base(w) {
      BitsSuffice(mini[j], w);
    }
    UnpackPack(mini, w);
  }

  /** Decoding the first `m` mini-blocks wherever an encoded block is stored. */
  lemma {:induction false} MinisRoundTrip(block: seq<nat>, m: nat, words: seq<nat>, at: nat)
    requires |block| == BLOCK && m <= 4 && Below(block, TWO_32)
    requires StoredAt(words, at, EncodeMinis(block, m))
    ensures at < |words| && words[at] == BlockHeader(block)
    ensures at + MiniOffset(BlockHeader(block), m) <= |words|
    ensures DecodeMinis(words, at, m) == block[..MINI_BLOCK * m]
  {
    hide Width, Pack, Unpack, MaxBits, BlockHeader, Base, Mini;
    hide StoredAt;
    EncodedMinis(block, m);
    StoredHead(words, at, EncodeMinis(block, m));
    if m > 0 {
      MiniWidths(block);
      EncodedMinis(block, m - 1);
      var packed := Pack(Mini(block, m - 1), MaxBits(Mini(block, m - 1)));
      StoredParts(words, at, EncodeMinis(block, m - 1), packed);
      MinisRoundTrip(block, m - 1, words, at);
      MiniUnpacks(block, m - 1);
      MiniExtends(block, m);
    }
  }

  lemma MiniExtends(block: seq<nat>, m: nat)
    requires |block| == BLOCK && 1 <= m <= 4
    ensures block[..MINI_BLOCK * m] == block[..MINI_BLOCK * (m - 1)] + Mini(block, m - 1)
  {
  }

  /** Round trip of the block-packed region, wherever it is stored. */
  lemma {:induction false} BlocksRoundTrip(values: seq<nat>, words: seq<nat>, at: nat)
    requires |values| % BLOCK == 0 && Below(values, TWO_32)
    requires StoredAt(words, at, EncodeBlocks(values))
    ensures HasBlocks(words, at, |values| / BLOCK)
    ensures DecodeBlocks(words, at, |values| / BLOCK) == values
    decreases |values|
  {
    hide EncodeMinis, DecodeMinis, MiniOffset, BlockHeader;
    if |values| > 0 {
      var block, rest := values[..BLOCK], values[BLOCK..];
      StoredParts(words, at, EncodeMinis(block, 4), EncodeBlocks(rest));
      EncodedMinis(block, 4);
      MinisRoundTrip(block, 4, words, at);
      assert |rest| / BLOCK == |values| / BLOCK - 1;
      BlocksRoundTrip(rest, words, at + BlockLength(words[at]));
      assert block[..MINI_BLOCK * 4] == block;
      assert block + rest == values;
    }
  }
}
