/** Truncation to narrow codes: exact spans of signed columns, and what the wrapped guard gets wrong. */
module Truncation {
  import opened Words

  /** The value width: `INTEGER` or `BIGINT`. */
  datatype Width = W32 | W64
  {
    function Modulus(): int { if W32? then TWO_32 else TWO_64 }

    predicate Holds(x: int) { if W32? then IsS32(x) else IsS64(x) }

    /** Signed arithmetic of this width, wrapping. */
    function Signed(x: int): int { if W32? then S32(x) else S64(x) }
  }

  /** Code widths: `u8`, `u16` and, for 64-bit values, `u32`. */
  predicate CodeMax(width: Width, max: nat) { max == 255 || max == 65535 || (width == W64 && max == 0xFFFF_FFFF) }

  /** `truncSpan`: both operands are reread as unsigned words before they are subtracted. */
  function TruncSpan(width: Width, max: int, min: int): int {
    (max % width.Modulus() - min % width.Modulus()) % width.Modulus()
  }

  /** Exact for every pair of signed values, however far apart. */
  lemma SpanExact(width: Width, max: int, min: int)
    requires width.Holds(max) && width.Holds(min) && min <= max
    ensures TruncSpan(width, max, min) == max - min
  {
    var m := width.Modulus();
    assert max % m == if max < 0 then max + m else max;
    assert min % m == if min < 0 then min + m else min;
  }

  /** `canCompress`: the span in signed 32-bit arithmetic, which wraps. */
  predicate CanCompress(max: int, min: int, codeMax: nat) { S32(max - min) <= codeMax }

  /** The guard answers like the exact span precisely while the span is below 2^31. */
  lemma CanCompressAgrees(max: int, min: int, codeMax: nat)
    requires IsS32(max) && IsS32(min) && min <= max && CodeMax(W32, codeMax)
    ensures (CanCompress(max, min, codeMax) <==> TruncSpan(W32, max, min) <= codeMax) <==> max - min < 0x8000_0000
  {
    SpanExact(W32, max, min);
  }

  lemma CanCompressWrong()
    ensures CanCompress(0x7FFF_FFFF, -0x8000_0000, 255) && TruncSpan(W32, 0x7FFF_FFFF, -0x8000_0000) == 0xFFFF_FFFF
  {
    SpanExact(W32, 0x7FFF_FFFF, -0x8000_0000);
  }

  /** The statistics' bounds, over all rows. */
  ghost predicate Bounds(src: seq<int>, width: Width, min: int, max: int) {
    width.Holds(min) && width.Holds(max) && min <= max && forall i :: 0 <= i < |src| ==> min <= src[i] <= max
  }

  /** Live rows carry a code that leads back to their value; codes of null rows are whatever the buffer held. */
  ghost predicate Truncated(codes: seq<nat>, base: int, width: Width, src: seq<int>, nulls: NullMap, n: nat)
    requires Covers(nulls, |src|) && n <= |src|
  {
    |codes| == |src| && forall i :: 0 <= i < n && Live(nulls, i) ==> width.Signed(base + codes[i]) == src[i]
  }

  lemma CodeLeadsBack(width: Width, v: int, min: int, max: int, codeMax: nat)
    requires width.Holds(v) && width.Holds(min) && min <= v <= max && max - min <= codeMax && CodeMax(width, codeMax)
    ensures var code := (v - min) % (codeMax + 1); code == v - min && width.Signed(min + code) == v
  {
  }

  /** `ITruncCompress`: refused exactly when the true span exceeds the code width. */
  method Compress(codes: array<nat>, src: seq<int>, nulls: NullMap, width: Width, min: int, max: int, codeMax: nat)
    returns (ok: bool)
    requires Covers(nulls, |src|) && codes.Length == |src| && Bounds(src, width, min, max) && CodeMax(width, codeMax)
    modifies codes
    ensures ok <==> max - min <= codeMax
    ensures ok ==> Truncated(codes[..], min, width, src, nulls, |src|)
    ensures forall i :: 0 <= i < |src| && (!ok || !Live(nulls, i)) ==> codes[i] == old(codes[i])
  {
    SpanExact(width, max, min);
    ok := TruncSpan(width, max, min) <= codeMax;
    if !ok {
      return;
    }
    var row := 0;
    while row < |src|
      invariant 0 <= row <= |src| && Truncated(codes[..], min, width, src, nulls, row)
      invariant forall i :: 0 <= i < |src| && (row <= i || !Live(nulls, i)) ==> codes[i] == old(codes[i])
    {
      if Live(nulls, row) {
        CodeLeadsBack(width, src[row], min, max, codeMax);
        codes[row] := (src[row] - min) % (codeMax + 1);
      }
      row := row + 1;
    }
  }

  /** `nullmap->type()` as the decoder sees it. */
  datatype Kind = NoMap | AllOnes | AllZeros | Mixed

  ghost predicate KindOf(kind: Kind, nulls: NullMap, n: nat)
    requires Covers(nulls, n)
  {
    match kind
    case NoMap => nulls.None?
    case AllOnes => forall i :: 0 <= i < n ==> Live(nulls, i)
    case AllZeros => NoLiveRow(nulls, n)
    case Mixed => nulls.Some?
  }

  /** `ITruncDecompress`: live rows get their value back, null rows of `dest` are left alone. */
  method Decompress(dest: array<int>, codes: seq<nat>, base: int, width: Width, kind: Kind, nulls: NullMap,
                    ghost src: seq<int>)
    requires |codes| == |src| == dest.Length && Covers(nulls, |src|) && KindOf(kind, nulls, |src|)
    requires Truncated(codes, base, width, src, nulls, |src|)
    modifies dest
    ensures forall i :: 0 <= i < |src| ==> dest[i] == if Live(nulls, i) then src[i] else old(dest[i])
  {
    if kind == AllZeros {
      return;
    }
    var row := 0;
    while row < |codes|
      invariant 0 <= row <= |codes|
      invariant forall i :: 0 <= i < |src| ==> dest[i] == if i < row && Live(nulls, i) then src[i] else old(dest[i])
    {
      if kind == NoMap || kind == AllOnes || Live(nulls, row) {
        dest[row] := width.Signed(base + codes[row]);
      }
      row := row + 1;
    }
  }

  /** `ITruncGather`: live rows in any order, repeats included; the null map is not consulted. */
  method Gather(dest: array<int>, codes: seq<nat>, base: int, width: Width, nulls: NullMap, positions: seq<nat>,
                ghost src: seq<int>)
    requires |codes| == |src| && Covers(nulls, |src|) && Truncated(codes, base, width, src, nulls, |src|)
    requires |positions| <= dest.Length && forall i :: 0 <= i < |positions| ==> positions[i] < |src|
    modifies dest
    ensures forall i :: 0 <= i < |positions| && Live(nulls, positions[i]) ==> dest[i] == src[positions[i]]
    ensures forall i :: |positions| <= i < dest.Length ==> dest[i] == old(dest[i])
  {
    if |codes| == 0 || |positions| == 0 {
      return;
    }
    var i := 0;
    while i < |positions|
      invariant 0 <= i <= |positions|
      invariant forall j :: 0 <= j < i && Live(nulls, positions[j]) ==> dest[j] == src[positions[j]]
      invariant forall j :: |positions| <= j < dest.Length ==> dest[j] == old(dest[j])
    {
      dest[i] := width.Signed(base + codes[positions[i]]);
      i := i + 1;
    }
  }
}
