/** What the integer schemes write, and why each of them loses nothing on live rows. */
module IntegerSchemes {
  import opened Words
  import opened RunLength
  import opened Bitmap
  import opened Cascade
  import opened NumberStats
  import Packing = BitPacking

  /**
    * The recorded scheme decodes the written stream to the input on every live row. A null map of type ALLZEROS is
    * passed to the decoder only when there is no live row.
    */
  ghost predicate Lossless(c: Column, src: seq<int>, nulls: NullMap)
    requires Covers(nulls, |src|)
  {
    && WellFormed(c, |src|)
    && forall allNull: bool :: (allNull ==> NoLiveRow(nulls, |src|)) ==>
         AgreeOnLive(Decode(c, |src|, allNull), src, nulls)
  }

  /** Without a null map there is nothing to lose. */
  lemma LosslessExact(c: Column, src: seq<int>)
    requires Lossless(c, src, None)
    ensures WellFormed(c, |src|) && Decode(c, |src|, false) == src
  {
    assert AgreeOnLive(Decode(c, |src|, false), src, None);
  }

  lemma ExactLossless(c: Column, src: seq<int>, nulls: NullMap)
    requires Covers(nulls, |src|) && WellFormed(c, |src|)
    requires forall allNull: bool :: Decode(c, |src|, allNull) == src
    ensures Lossless(c, src, nulls)
  {
  }

  lemma RawLossless(src: seq<int>, nulls: NullMap)
    requires Covers(nulls, |src|)
    ensures Lossless(Column(UNCOMPRESSED, Raw(src)), src, nulls)
  {
  }

  lemma ForeignLossless(src: seq<int>, nulls: NullMap)
    requires Covers(nulls, |src|)
    ensures Lossless(Column(PFOR, Foreign(src)), src, nulls)
  {
  }

  // ---------------------------------------------------------------- one value

  /** Every live row carries the column's smallest value. */
  ghost predicate ConstantAtMin(src: seq<int>, nulls: NullMap)
    requires Covers(nulls, |src|)
  {
    forall i, m :: 0 <= i < |src| && Live(nulls, i) && Least(src, m) ==> src[i] == m
  }

  /** ONE_VALUE stores the smallest value, so it is lossless exactly on columns that are constant there. */
  lemma OneValueLossless(src: seq<int>, nulls: NullMap, min: int)
    requires Covers(nulls, |src|) && Least(src, min)
    ensures Lossless(Column(ONE_VALUE, Constant(min)), src, nulls) <==> ConstantAtMin(src, nulls)
  {
    var c := Column(ONE_VALUE, Constant(min));
    assert Decode(c, |src|, false) == Constantly(min, |src|) && Decode(c, |src|, true) == Constantly(min, |src|);
    if Lossless(c, src, nulls) {
      assert AgreeOnLive(Decode(c, |src|, false), src, nulls);
    }
  }

  /** The shortcut's guard, and the estimate's: at most one distinct value, or nothing live. */
  lemma FewDistinct(src: seq<int>, nulls: NullMap, stats: Stats)
    requires Covers(nulls, |src|) && Describes(stats, src, nulls, 4)
    ensures stats.nullCount == stats.tupleCount || stats.uniqueCount <= 1 ==> ConstantAtMin(src, nulls)
  {
    NullRowsBound(nulls, |src|, |src|);
    forall i, m | 0 <= i < |src| && Live(nulls, i) && Least(src, m) && stats.uniqueCount <= 1 ensures src[i] == m {
      assert src[i] in src;
      SubsetSize({src[i], m}, stats.distinct.Keys);
    }
  }

  lemma HasMember(a: set<int>)
    ensures a != {} ==> exists x :: x in a
  {
    assert (forall x :: x !in a) ==> a == {};
  }

  lemma {:induction false} SubsetSize(a: set<int>, b: set<int>)
    requires a <= b
    ensures |a| <= |b|
  {
    if a != {} {
      HasMember(a);
      var x :| x in a;
      SubsetSize(a - {x}, b - {x});
    }
  }

  // ---------------------------------------------------------------- dictionary

  lemma {:induction false} SmallestKey(keys: set<int>) returns (m: int)
    requires keys != {}
    ensures m in keys && forall k :: k in keys ==> m <= k
  {
    HasMember(keys);
    m :| m in keys;
    var others := keys - {m};
    assert forall k :: k in keys ==> k == m || k in others;
    if others != {} {
      var rest := SmallestKey(others);
      m := if rest < m then rest else m;
    }
  }

  /** Iteration of a `std::map`: the keys in ascending order. */
  method SortedKeys(keys: set<int>) returns (order: seq<int>)
    ensures StrictlyAscending(order) && forall k :: k in order <==> k in keys
  {
    order := [];
    var left := keys;
    while left != {}
      invariant left <= keys && StrictlyAscending(order)
      invariant forall k :: k in order <==> k in keys && k !in left
      invariant forall i, k :: 0 <= i < |order| && k in left ==> order[i] < k
      decreases |left|
    {
      ghost var least := SmallestKey(left);
      var m :| m in left && forall k :: k in left ==> m <= k;
      order, left := order + [m], left - {m};
    }
  }

  /** `std::lower_bound`. */
  method LowerBound(dict: seq<int>, v: int) returns (lo: nat)
    requires StrictlyAscending(dict)
    ensures lo <= |dict| && (forall i :: 0 <= i < lo ==> dict[i] < v) && (forall i :: lo <= i < |dict| ==> v <= dict[i])
  {
    lo := 0;
    var hi := |dict|;
    while lo < hi
      invariant 0 <= lo <= hi <= |dict|
      invariant (forall i :: 0 <= i < lo ==> dict[i] < v) && (forall i :: hi <= i < |dict| ==> v <= dict[i])
    {
      var mid := lo + (hi - lo) / 2;
      if dict[mid] < v {
        lo := mid + 1;
      } else {
        hi := mid;
      }
    }
  }

  /** The code of a value that occurs in the column: `lower_bound` finds exactly that dictionary entry. */
  method CodeOf(dict: seq<int>, ghost distinct: map<int, nat>, ghost src: seq<int>, v: int) returns (code: nat)
    requires StrictlyAscending(dict) && Occurrences(src, distinct) && v in src
    requires forall k :: k in dict <==> k in distinct.Keys
    ensures code < |dict| && dict[code] == v
  {
    assert v in distinct.Keys;
    assert v in dict;
    code := LowerBound(dict, v);
  }

  /** `TDynamicDictionary::compressColumn`: the dictionary, and a code per row that looks up exactly that row. */
  method EncodeDictionary(src: seq<int>, distinct: map<int, nat>) returns (dict: seq<int>, codes: seq<int>)
    requires Occurrences(src, distinct)
    ensures |codes| == |src| && |dict| == |distinct| && CodesInRange(codes, dict) && Lookup(dict, codes) == src
    ensures StrictlyAscending(dict) && forall k :: k in dict ==> k in src
  {
    dict := SortedKeys(distinct.Keys);
    KeysFromColumn(dict, src, distinct);
    hide Occurrences, StrictlyAscending;
    DictionarySize(dict, distinct.Keys);
    codes := [];
    while |codes| < |src|
      invariant |codes| <= |src| && CodesInRange(codes, dict)
      invariant forall i :: 0 <= i < |codes| ==> dict[codes[i]] == src[i]
    {
      var code := CodeOf(dict, distinct, src, src[|codes|]);
      codes := codes + [code];
    }
  }

  lemma KeysFromColumn(dict: seq<int>, src: seq<int>, distinct: map<int, nat>)
    requires Occurrences(src, distinct) && forall k :: k in dict <==> k in distinct.Keys
    ensures forall k :: k in dict ==> k in src
  {
  }

  lemma {:induction false} DictionarySize(dict: seq<int>, keys: set<int>)
    requires StrictlyAscending(dict) && forall k :: k in dict <==> k in keys
    ensures |dict| == |keys|
  {
    HasMember(keys);
    if |dict| > 0 {
      var last := dict[|dict| - 1];
      assert dict == dict[..|dict| - 1] + [last];
      assert last in dict;
      forall k ensures k in dict[..|dict| - 1] <==> k in keys - {last} {
        assert k in dict <==> k in dict[..|dict| - 1] || k == last;
      }
      DictionarySize(dict[..|dict| - 1], keys - {last});
    }
  }

  lemma DictionaryLossless(dict: seq<int>, codes: seq<int>, child: Column, src: seq<int>, nulls: NullMap)
    requires Covers(nulls, |src|) && |codes| == |src| && CodesInRange(codes, dict) && Lookup(dict, codes) == src
    requires Lossless(child, codes, None)
    ensures Lossless(Column(DICT, Dictionary(dict, child)), src, nulls)
  {
    LosslessExact(child, codes);
    var c := Column(DICT, Dictionary(dict, child));
    assert Decode(c, |src|, false) == src && Decode(c, |src|, true) == src;
  }

  lemma CodesAreS32(dict: seq<int>, codes: seq<int>)
    requires CodesInRange(codes, dict) && |dict| < 0x8000_0000
    ensures AllS32(codes)
  {
  }

  lemma {:induction false} DistinctBound(src: seq<int>, keys: set<int>)
    requires forall k :: k in keys ==> k in src
    ensures |keys| <= |src|
  {
    HasMember(keys);
    if |src| > 0 {
      var last := src[|src| - 1];
      forall k | k in keys - {last} ensures k in src[..|src| - 1] {
        assert k in src && src == src[..|src| - 1] + [last];
      }
      DistinctBound(src[..|src| - 1], keys - {last});
    }
  }

  // ---------------------------------------------------------------- run length

  lemma RunLengthLossless(values: seq<int>, counts: seq<int>, vs: Column, cs: Column, src: seq<int>, nulls: NullMap)
    requires 1 <= |src| && Covers(nulls, |src|) && Encoded(values, counts, src, nulls) && Total(counts) == |src|
    requires Lossless(vs, values, None) && Lossless(cs, counts, None)
    ensures Lossless(Column(RLE, RunLengths(|values|, vs, cs)), src, nulls)
  {
    LosslessExact(vs, values);
    LosslessExact(cs, counts);
    var c := Column(RLE, RunLengths(|values|, vs, cs));
    assert WellFormed(c, |src|);
    assert Decode(c, |src|, false) == Expand(values, counts) && Decode(c, |src|, true) == Expand(values, counts);
  }

  lemma {:induction false} ValuesFromColumn(src: seq<int>, nulls: NullMap, values: seq<int>, counts: seq<int>)
    requires 1 <= |src| && Covers(nulls, |src|) && Encoded(values, counts, src, nulls) && Total(counts) == |src|
    requires AllS32(src) && |src| < 0x8000_0000
    ensures AllS32(values) && AllS32(counts)
    ensures |values| <= |src|
  {
    forall r: nat | r < |values| ensures IsS32(values[r]) && IsS32(counts[r]) && r < |src| {
      assert Head(src, nulls, values[r], Start(counts, r), |src|, r > 0);
      StartMonotone(counts, r + 1, |counts|);
      StartMonotone(counts, 0, r);
      RunsTakeRows(counts, r);
    }
  }

  lemma {:induction false} RunsTakeRows(counts: seq<int>, r: nat)
    requires r <= |counts| && Positive(counts)
    ensures r <= Start(counts, r)
  {
    if r > 0 {
      RunsTakeRows(counts, r - 1);
    }
  }

  // ---------------------------------------------------------------- frequency

  /** The exception rows below `n` and their values, in row order. */
  ghost predicate ExceptionsTo(src: seq<int>, nulls: NullMap, top: int, rows: set<nat>, ex: seq<int>, n: nat)
    requires n <= |src| && Covers(nulls, |src|)
  {
    && (forall i :: i in rows <==> 0 <= i < n && Live(nulls, i) && src[i] != top)
    && ex == seq(|Ascending(rows, n)|, k requires 0 <= k < |Ascending(rows, n)| => src[Ascending(rows, n)[k]])
  }

  lemma {:induction false} AscendingIgnores(rows: set<nat>, row: nat, n: nat)
    requires n <= row
    ensures Ascending(rows + {row}, n) == Ascending(rows, n)
  {
    if n > 0 {
      AscendingIgnores(rows, row, n - 1);
    }
  }

  /** `TFrequency::compressColumn`: one pass that pushes exceptions and sets their bits. */
  method EncodeFrequency(src: seq<int>, nulls: NullMap, top: int) returns (rows: set<nat>, ex: seq<int>)
    requires Covers(nulls, |src|)
    ensures ExceptionsTo(src, nulls, top, rows, ex, |src|) && |ex| == |rows|
  {
    rows, ex := {}, [];
    var row := 0;
    while row < |src|
      invariant 0 <= row <= |src| && ExceptionsTo(src, nulls, top, rows, ex, row)
    {
      if src[row] != top && Live(nulls, row) {
        AscendingIgnores(rows, row, row);
        ex := ex + [src[row]];
        rows := rows + {row};
      }
      row := row + 1;
    }
    AscendingTotal(rows, |src|);
  }

  /** What FREQUENCY stores for a column of mostly nulls is zero, else the smallest of the most frequent values. */
  ghost predicate TopOf(top: int, src: seq<int>, nulls: NullMap)
    requires Covers(nulls, |src|)
  {
    if 90 * |src| <= 100 * NullRows(nulls, |src|) then top == 0 else MostFrequent(top, src)
  }

  ghost predicate MostFrequent(top: int, src: seq<int>) {
    && top in src && (forall v :: multiset(src)[v] <= multiset(src)[top])
    && forall v :: multiset(src)[v] == multiset(src)[top] ==> top <= v
  }

  lemma TopIsMostFrequent(top: int, src: seq<int>, distinct: map<int, nat>)
    requires Occurrences(src, distinct) && top in distinct
    requires forall v :: v in distinct ==> distinct[v] <= distinct[top]
    requires forall v :: v in distinct && distinct[v] == distinct[top] ==> top <= v
    ensures MostFrequent(top, src)
  {
    forall v ensures multiset(src)[v] <= multiset(src)[top] && (multiset(src)[v] == multiset(src)[top] ==> top <= v) {
      assert top in multiset(src);
      if v !in distinct {
        assert v !in multiset(src);
      }
    }
  }

  /** There is one such value. */
  lemma TopUnique(a: int, b: int, src: seq<int>, nulls: NullMap)
    requires Covers(nulls, |src|) && TopOf(a, src, nulls) && TopOf(b, src, nulls)
    ensures a == b
  {
    assert MostFrequent(a, src) && MostFrequent(b, src) ==>
        multiset(src)[a] <= multiset(src)[b] <= multiset(src)[a];
  }

  /** The live rows that differ from the stored value. */
  ghost function ExceptionRows(src: seq<int>, nulls: NullMap, top: int): set<nat>
    requires Covers(nulls, |src|)
  {
    set i: nat | i < |src| && Live(nulls, i) && src[i] != top
  }

  lemma ExceptionRowsAre(src: seq<int>, nulls: NullMap, top: int, rows: set<nat>, ex: seq<int>)
    requires Covers(nulls, |src|) && ExceptionsTo(src, nulls, top, rows, ex, |src|)
    ensures rows == ExceptionRows(src, nulls, top) && |ex| == |rows|
  {
    AscendingTotal(rows, |src|);
  }

  ghost function Distinct(src: seq<int>): set<int> { set v | v in src }

  lemma KeysAreDistinct(src: seq<int>, distinct: map<int, nat>)
    requires Occurrences(src, distinct)
    ensures distinct.Keys == Distinct(src) && |distinct| == |Distinct(src)|
  {
    assert forall v :: v in distinct.Keys <==> v in Distinct(src);
  }

  /** `compressColumn`'s choice: the first, in key order, of the most frequent values. */
  method TopValue(distinct: map<int, nat>) returns (top: int)
    requires distinct.Keys != {}
    ensures top in distinct && forall v :: v in distinct ==> distinct[v] <= distinct[top]
    ensures forall v :: v in distinct && distinct[v] == distinct[top] ==> top <= v
  {
    var order := SortedKeys(distinct.Keys);
    HasMember(distinct.Keys);
    top := order[0];
    var i := 1;
    while i < |order|
      invariant 1 <= i <= |order| && top in order[..i]
      invariant forall j :: 0 <= j < i ==> distinct[order[j]] <= distinct[top]
      invariant forall j :: 0 <= j < i && distinct[order[j]] == distinct[top] ==> top <= order[j]
    {
      if distinct[order[i]] > distinct[top] {
        top := order[i];
      }
      i := i + 1;
    }
  }

  lemma {:induction false} AscendingBound(rows: set<nat>, n: nat)
    ensures |Ascending(rows, n)| <= n
  {
    if n > 0 {
      AscendingBound(rows, n - 1);
    }
  }

  lemma ExceptionsFromColumn(src: seq<int>, nulls: NullMap, top: int, rows: set<nat>, ex: seq<int>)
    requires Covers(nulls, |src|) && AllS32(src) && ExceptionsTo(src, nulls, top, rows, ex, |src|)
    ensures AllS32(ex) && |ex| <= |src|
  {
    AscendingBound(rows, |src|);
  }

  lemma FrequencyLossless(top: int, rows: set<nat>, ex: seq<int>, child: Column, src: seq<int>, nulls: NullMap)
    requires Covers(nulls, |src|) && ExceptionsTo(src, nulls, top, rows, ex, |src|)
    requires Lossless(child, ex, None)
    ensures Lossless(Column(FREQUENCY, Exceptions(top, rows, child)), src, nulls)
  {
    LosslessExact(child, ex);
    AscendingTotal(rows, |src|);
    var c := Column(FREQUENCY, Exceptions(top, rows, child));
    assert WellFormed(c, |src|);
    var got := Overlay(top, rows, if |rows| > 0 then ex else [], |src|);
    assert Decode(c, |src|, false) == got && Decode(c, |src|, true) == got;
    forall i | 0 <= i < |src| && Live(nulls, i) ensures got[i] == src[i] {
      if i in rows {
        RankIsPosition(rows, |src|, i);
      }
    }
  }

  // ---------------------------------------------------------------- frame of reference

  /** Live rows are biased with wrap-around, null rows are passed on as they are. */
  function Biases(src: seq<int>, nulls: NullMap, bias: int): (s: seq<int>)
    requires Covers(nulls, |src|)
    ensures |s| == |src| && forall i :: 0 <= i < |s| ==> s[i] == if Live(nulls, i) then S32(src[i] - bias) else src[i]
  {
    seq(|src|, i requires 0 <= i < |src| => if Live(nulls, i) then S32(src[i] - bias) else src[i])
  }

  method EncodeFor(src: seq<int>, nulls: NullMap, bias: int) returns (biased: seq<int>)
    requires Covers(nulls, |src|)
    ensures biased == Biases(src, nulls, bias)
  {
    biased := [];
    var row := 0;
    while row < |src|
      invariant 0 <= row <= |src| && biased == Biases(src, nulls, bias)[..row]
    {
      if Live(nulls, row) {
        biased := biased + [S32(src[row] - bias)];
      } else {
        biased := biased + [src[row]];
      }
      row := row + 1;
    }
  }

  lemma ForLossless(src: seq<int>, nulls: NullMap, bias: int, child: Column)
    requires Covers(nulls, |src|) && AllS32(src)
    requires Lossless(child, Biases(src, nulls, bias), nulls)
    ensures Lossless(Column(FOR, Biased(bias, child)), src, nulls)
  {
    var biased := Biases(src, nulls, bias);
    var c := Column(FOR, Biased(bias, child));
    assert AgreeOnLive(Decode(child, |src|, false), biased, nulls);
    forall i | 0 <= i < |src| && Live(nulls, i) ensures Decode(c, |src|, false)[i] == src[i] {
      BiasRoundTrip(src[i], bias);
    }
    assert NoLiveRow(nulls, |src|) ==> AgreeOnLive(Decode(c, |src|, true), src, nulls);
  }

  // ---------------------------------------------------------------- bit packing

  /** FBP: whole blocks are packed, the rest is left to the tail codec. */
  function EncodePacked(src: seq<int>): (body: Body)
    ensures body.Packed?
  {
    var packed := |src| / Packing.BLOCK * Packing.BLOCK;
    Packed([packed] + Packing.EncodeBlocks(Unsigned(src[..packed])), src[packed..])
  }

  /** `reinterpret_cast<const u32*>`. */
  function Unsigned(src: seq<int>): (s: seq<nat>)
    ensures |s| == |src| && forall i :: 0 <= i < |s| ==> s[i] == U32(src[i])
  {
    seq(|src|, i requires 0 <= i < |src| => U32(src[i]))
  }

  lemma PackedLossless(src: seq<int>, nulls: NullMap)
    requires Covers(nulls, |src|) && AllS32(src)
    ensures Lossless(Column(BP, EncodePacked(src)), src, nulls)
  {
    hide Packing.EncodeBlocks, Packing.DecodeBlocks, Packing.HasBlocks;
    var c := Column(BP, EncodePacked(src));
    var packed := |src| / Packing.BLOCK * Packing.BLOCK;
    var values := Unsigned(src[..packed]);
    assert Packing.StoredAt(c.body.words, 1, Packing.EncodeBlocks(values));
    Packing.BlocksRoundTrip(values, c.body.words, 1);
    assert Signed(values) == src[..packed] by {
      forall i | 0 <= i < packed ensures S32(values[i]) == src[i] {
        SignedUnsigned(src[i]);
      }
    }
    assert src[..packed] + src[packed..] == src;
    ExactLossless(c, src, nulls);
  }
}
