/** 64-bit columns over the 32-bit cascade: the words of every value are compressed as two integer columns. */
module Bp64 {
  import opened Words
  import opened Cascade
  import opened IntegerSchemes
  import opened CascadeReader
  import opened SchemePicker

  predicate AllS64(s: seq<int>) { forall i :: 0 <= i < |s| ==> IsS64(s[i]) }

  function Lows(src: seq<int>): (s: seq<int>)
    ensures |s| == |src| && forall i :: 0 <= i < |s| ==> s[i] == Low32(src[i])
  {
    seq(|src|, i requires 0 <= i < |src| => Low32(src[i]))
  }

  function Highs(src: seq<int>): (s: seq<int>)
    ensures |s| == |src| && forall i :: 0 <= i < |s| ==> s[i] == High32(src[i])
  {
    seq(|src|, i requires 0 <= i < |src| => High32(src[i]))
  }

  ghost predicate Lossless64(c: Column64, src: seq<int>, nulls: NullMap)
    requires Covers(nulls, |src|)
  {
    && WellFormed64(c, |src|)
    && forall allNull: bool :: (allNull ==> NoLiveRow(nulls, |src|)) ==>
         AgreeOnLive(Decode64(c, |src|, allNull), src, nulls)
  }

  /** Both words survive on live rows, so the values do. */
  lemma WordsLossless(c: Column64, src: seq<int>, nulls: NullMap)
    requires Covers(nulls, |src|) && AllS64(src)
    requires Lossless(c.low, Lows(src), nulls) && Lossless(c.high, Highs(src), nulls)
    ensures Lossless64(c, src, nulls)
  {
    forall allNull: bool | allNull ==> NoLiveRow(nulls, |src|)
      ensures AgreeOnLive(Decode64(c, |src|, allNull), src, nulls)
    {
      assert AgreeOnLive(Decode(c.low, |src|, allNull), Lows(src), nulls);
      assert AgreeOnLive(Decode(c.high, |src|, allNull), Highs(src), nulls);
      forall i | 0 <= i < |src| && Live(nulls, i) ensures Decode64(c, |src|, allNull)[i] == src[i] {
        SplitCombine64(src[i]);
      }
    }
  }

  /** `BP64::compress`, called by the 64-bit picker, which shares the level counters; both words go one level down. */
  method Compress64(picker: Picker, src: seq<int>, nulls: NullMap, level: nat) returns (c: Column64, afterSize: nat)
    requires picker.Configured() && picker.Unforced() && 1 <= picker.compressionLevel
    requires Covers(nulls, |src|) && AllS64(src) && |src| < MAX_ROWS && 1 <= level
    modifies picker
    ensures picker.Restored() && Lossless64(c, src, nulls)
    ensures afterSize == 6 + picker.StreamSize(c.low) + picker.StreamSize(c.high)
    ensures picker.estimationLevel == 0 ==> afterSize <= 6 + 8 * |src|
    ensures level == 1 ==> afterSize == 6 + 8 * |src|
    ensures Noted(picker.history, |old(picker.history)|, Asked(Lows(src), nulls, level - 1, None))
    ensures Noted(picker.history, |old(picker.history)|, Asked(Highs(src), nulls, level - 1, None))
  {
    hide Noted, Lossless64, Lossless, Picker.Decided, Picker.StreamSize, Picker.NestedBounds, Picker.Faithful;
    var low, lowUsed, lowCode := picker.Compress(Lows(src), nulls, level - 1, None);
    ghost var between := picker.history;
    var high, highUsed, highCode := picker.Compress(Highs(src), nulls, level - 1, None);
    c := Column64(Column(lowCode, low), Column(highCode, high));
    NotedStays(between, picker.history, |old(picker.history)|);
    NotedEarlier(picker.history, |between|, |old(picker.history)|);
    WordsLossless(c, src, nulls);
    afterSize := 6 + lowUsed + highUsed;
  }
}
