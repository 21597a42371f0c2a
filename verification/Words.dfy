/** Fixed-width two's complement arithmetic and the null maps shared by all schemes. */
module Words {
  const TWO_32: nat := 0x1_0000_0000
  const TWO_64: int := 0x1_0000_0000_0000_0000

  datatype Option<+T> = None | Some(value: T)

  datatype Result<+T, +E> = Ok(value: T) | Err(error: E)

  function Min(a: nat, b: nat): nat { if a < b then a else b }

  function Max(a: nat, b: nat): nat { if a < b then b else a }

  function Power2(n: nat): nat { if n == 0 then 1 else 2 * Power2(n - 1) }

  /** `Utils::getBitsNeeded` for an unsigned number. */
  function BitsNeeded(n: nat): (bits: nat)
    ensures 1 <= bits
  {
    if n < 2 then 1 else 1 + BitsNeeded(n / 2)
  }

  /** It is the length of the number in binary. */
  lemma {:induction false} BitsNeededExact(n: nat)
    requires 1 <= n
    ensures Power2(BitsNeeded(n) - 1) <= n < Power2(BitsNeeded(n))
  {
    if n >= 2 {
      BitsNeededExact(n / 2);
    } else {
      assert Power2(1) == 2 * Power2(0);
    }
  }

  lemma {:induction false} Power2Monotone(a: nat, b: nat)
    requires a <= b
    ensures 1 <= Power2(a) <= Power2(b)
  {
    if a < b {
      Power2Monotone(a, b - 1);
    } else if a > 0 {
      Power2Monotone(a - 1, b - 1);
    }
  }

  ghost predicate StrictlyAscending(s: seq<int>) { forall i, j :: 0 <= i < j < |s| ==> s[i] < s[j] }

  lemma MulMonotone(a: nat, x: int, y: int)
    ensures x <= y ==> a * x <= a * y
  {
  }

  lemma DivMod(d: nat, b: nat, q: nat)
    requires d < b
    ensures (d + b * q) % b == d && (d + b * q) / b == q
  {
    var n := d + b * q;
    var r := n / b - q;
    assert n == b * (n / b) + n % b;
    assert b * r == d - n % b;
    MulMonotone(b, 1, r);
    MulMonotone(b, r, -1);
  }

  /** `const BITMAP* nullmap`: absent (`nullptr`), or one flag per row; true marks a present value. */
  type NullMap = Option<seq<bool>>

  predicate Covers(nulls: NullMap, n: nat) {
    nulls.Some? ==> |nulls.value| == n
  }

  predicate Live(nulls: NullMap, row: nat)
    requires nulls.Some? ==> row < |nulls.value|
  {
    nulls.None? || nulls.value[row]
  }

  predicate NoLiveRow(nulls: NullMap, n: nat)
    requires Covers(nulls, n)
  {
    forall i :: 0 <= i < n ==> !Live(nulls, i)
  }

  /** The decoded column `got` reproduces `src` on every row that is not null. */
  ghost predicate AgreeOnLive<T(!new)>(got: seq<T>, src: seq<T>, nulls: NullMap)
    requires Covers(nulls, |src|)
  {
    |got| == |src| && forall i :: 0 <= i < |src| && Live(nulls, i) ==> got[i] == src[i]
  }

  predicate IsS32(x: int) { -0x8000_0000 <= x < 0x8000_0000 }

  predicate IsU32(x: int) { 0 <= x < TWO_32 }

  predicate IsS64(x: int) { -0x8000_0000_0000_0000 <= x < 0x8000_0000_0000_0000 }

  predicate AllS32(s: seq<int>) { forall i :: 0 <= i < |s| ==> IsS32(s[i]) }

  /** `static_cast<u32>`. */
  function U32(x: int): (u: int)
    ensures IsU32(u)
  {
    x % TWO_32
  }

  /** `static_cast<u64>`. */
  function U64(x: int): int { x % TWO_64 }

  /** `static_cast<INTEGER>` of a machine word, and the result of wrapping 32-bit signed arithmetic. */
  function S32(x: int): (s: int)
    ensures IsS32(s)
  {
    var u := x % TWO_32;
    if u < 0x8000_0000 then u else u - TWO_32
  }

  function S64(x: int): int {
    var u := x % TWO_64;
    if u < 0x8000_0000_0000_0000 then u else u - TWO_64
  }

  lemma SignedUnsigned(x: int)
    requires IsS32(x)
    ensures S32(U32(x)) == x
  {
  }

  /** Frame of reference: a wrapped subtraction is undone by a wrapped addition of the same bias. */
  lemma BiasRoundTrip(x: int, bias: int)
    requires IsS32(x)
    ensures S32(S32(x - bias) + bias) == x
  {
    var k := (x - bias) / TWO_32;
    var j := if (x - bias) % TWO_32 < 0x8000_0000 then k else k + 1;
    assert S32(x - bias) == x - bias - j * TWO_32;
    WrapIgnoresMultiples(x, -j);
  }

  lemma WrapIgnoresMultiples(x: int, k: int)
    ensures (x + k * TWO_32) % TWO_32 == x % TWO_32
  {
    var q := (x + k * TWO_32) / TWO_32 - k;
    assert x == q * TWO_32 + (x + k * TWO_32) % TWO_32;
  }

  /** BP64 halves: the two 32-bit words of a 64-bit value, each reread as a signed integer. */
  function Low32(v: int): int { S32(U64(v) % TWO_32) }

  function High32(v: int): int { S32(U64(v) / TWO_32) }

  /** BP64 recombination; the halves occupy disjoint bits, so the bitwise or is a sum. */
  function Combine64(low: int, high: int): int { S64(U32(low) + U32(high) * TWO_32) }

  lemma SplitCombine64(v: int)
    requires IsS64(v)
    ensures Combine64(Low32(v), High32(v)) == v
  {
    var u := U64(v);
    assert U32(Low32(v)) == u % TWO_32;
    assert U32(High32(v)) == u / TWO_32;
    assert u == u / TWO_32 * TWO_32 + u % TWO_32;
    assert S64(u) == v;
  }
}
