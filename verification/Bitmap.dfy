/** Roaring bitmaps as finite sets of row numbers: ascending iteration, and rank as a count of members. */
module Bitmap {
  /** `Roaring::iterate`: the members below `n`, in ascending order. */
  function Ascending(rows: set<nat>, n: nat): (order: seq<nat>)
    ensures forall k :: 0 <= k < |order| ==> order[k] < n && order[k] in rows
  {
    if n == 0 then []
    else if n - 1 in rows then Ascending(rows, n - 1) + [n - 1]
    else Ascending(rows, n - 1)
  }

  function Below(rows: set<nat>, n: nat): set<nat> { set r | r in rows && r < n }

  /** `Roaring::rank`: how many members are at most `x`. */
  function Rank(rows: set<nat>, x: nat): nat { |Below(rows, x + 1)| }

  predicate Within(rows: set<nat>, n: nat) { forall r :: r in rows ==> r < n }

  lemma {:induction false} AscendingCounts(rows: set<nat>, n: nat)
    ensures |Ascending(rows, n)| == |Below(rows, n)|
  {
    if n > 0 {
      AscendingCounts(rows, n - 1);
      if n - 1 in rows {
        assert Below(rows, n) == Below(rows, n - 1) + {n - 1};
      } else {
        assert Below(rows, n) == Below(rows, n - 1);
      }
    }
  }

  /** Iteration visits every member. */
  lemma AscendingTotal(rows: set<nat>, n: nat)
    requires Within(rows, n)
    ensures |Ascending(rows, n)| == |rows|
  {
    AscendingCounts(rows, n);
    assert Below(rows, n) == rows;
  }

  /** The member `x` is visited as number `Rank(x)`, counting from one. */
  lemma {:induction false} RankIsPosition(rows: set<nat>, n: nat, x: nat)
    requires x in rows && x < n
    ensures 1 <= Rank(rows, x) <= |Ascending(rows, n)| && Ascending(rows, n)[Rank(rows, x) - 1] == x
  {
    if x == n - 1 {
      AscendingCounts(rows, n);
      AscendingCounts(rows, n - 1);
    } else {
      RankIsPosition(rows, n - 1, x);
    }
  }

  /** Conversely, the `k`-th visited member has rank `k + 1`. */
  lemma {:induction false} PositionIsRank(rows: set<nat>, n: nat, k: nat)
    requires k < |Ascending(rows, n)|
    ensures Rank(rows, Ascending(rows, n)[k]) == k + 1
  {
    AscendingCounts(rows, n);
    if n - 1 in rows && k == |Ascending(rows, n)| - 1 {
    } else {
      PositionIsRank(rows, n - 1, k);
    }
  }

  /** Iteration never repeats a member. */
  lemma AscendingDistinct(rows: set<nat>, n: nat, j: nat, k: nat)
    requires j < k < |Ascending(rows, n)|
    ensures Ascending(rows, n)[j] < Ascending(rows, n)[k]
  {
    if n - 1 in rows && k == |Ascending(rows, n)| - 1 {
    } else {
      AscendingDistinct(rows, n - 1, j, k);
    }
  }

  /** No member lies strictly between two neighbours of the iteration, nor before the first or behind the last one. */
  lemma NoneBetween(rows: set<nat>, n: nat, k: nat, b: nat)
    requires k <= |Ascending(rows, n)| && b < n
    requires k > 0 ==> Ascending(rows, n)[k - 1] < b
    requires k < |Ascending(rows, n)| ==> b < Ascending(rows, n)[k]
    ensures b !in rows
  {
    if b in rows {
      RankIsPosition(rows, n, b);
      var r := Rank(rows, b) - 1;
      if r < k - 1 {
        AscendingDistinct(rows, n, r, k - 1);
      } else if k < r {
        AscendingDistinct(rows, n, k, r);
      }
      assert false;
    }
  }
}
