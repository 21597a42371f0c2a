/** Strings laid end to end, repeated strings, and the buffer primitives that write them. */
module Texts {
  import opened Words

  // ---------------------------------------------------------------- layout

  /** Where text `k` begins when the texts are laid end to end. */
  function Offset<T>(texts: seq<seq<T>>, k: nat): (o: nat)
    requires k <= |texts|
  {
    if k == 0 then 0 else Offset(texts, k - 1) + |texts[k - 1]|
  }

  function JoinedTo<T>(texts: seq<seq<T>>, k: nat): (s: seq<T>)
    requires k <= |texts|
    ensures |s| == Offset(texts, k)
  {
    if k == 0 then [] else JoinedTo(texts, k - 1) + texts[k - 1]
  }

  function Joined<T>(texts: seq<seq<T>>): seq<T> { JoinedTo(texts, |texts|) }

  lemma {:induction false} OffsetMonotone<T>(texts: seq<seq<T>>, j: nat, k: nat)
    requires j <= k <= |texts|
    ensures Offset(texts, j) <= Offset(texts, k)
  {
    if j < k {
      OffsetMonotone(texts, j, k - 1);
    }
  }

  /** Cutting at the offsets gives back the text. */
  lemma {:induction false} JoinedSlice<T>(texts: seq<seq<T>>, i: nat, k: nat)
    requires i < k <= |texts|
    ensures Offset(texts, i) + |texts[i]| <= Offset(texts, k)
    ensures JoinedTo(texts, k)[Offset(texts, i)..Offset(texts, i) + |texts[i]|] == texts[i]
    decreases k
  {
    if i < k - 1 {
      JoinedSlice(texts, i, k - 1);
    }
  }

  // ---------------------------------------------------------------- repeated texts

  function Times<T>(text: seq<T>, n: nat): seq<T> { if n == 0 then [] else Times(text, n - 1) + text }

  lemma {:induction false} TimesLength<T>(text: seq<T>, n: nat)
    ensures 0 <= |text| * n && |Times(text, n)| == |text| * n
  {
    if n > 0 {
      TimesLength(text, n - 1);
      assert |text| * n == |text| * (n - 1) + |text|;
    }
  }

  lemma {:induction false} TimesSum<T>(text: seq<T>, m: nat, n: nat)
    ensures Times(text, m + n) == Times(text, m) + Times(text, n)
  {
    if n == 0 {
      assert Times(text, m) + [] == Times(text, m);
    } else {
      TimesSum(text, m, n - 1);
      assert Times(text, m + n) == Times(text, m + (n - 1)) + text;
    }
  }

  /** The first copies of a repetition. */
  lemma TimesPrefix<T>(text: seq<T>, m: nat, n: nat)
    requires m <= n
    ensures |text| * m <= |Times(text, n)| && Times(text, n)[..|text| * m] == Times(text, m)
  {
    TimesSum(text, m, n - m);
    TimesLength(text, m);
  }

  /** Equal neighbours: offsets advance evenly and the joined text repeats. */
  lemma {:induction false} EqualTexts<T>(texts: seq<seq<T>>, from: nat, text: seq<T>, k: nat)
    requires from + k <= |texts| && forall i :: from <= i < from + k ==> texts[i] == text
    ensures 0 <= |text| * k && Offset(texts, from + k) == Offset(texts, from) + |text| * k
    ensures JoinedTo(texts, from + k) == JoinedTo(texts, from) + Times(text, k)
  {
    if k == 0 {
      assert JoinedTo(texts, from) + [] == JoinedTo(texts, from);
    } else {
      EqualTexts(texts, from, text, k - 1);
      assert |text| * k == |text| * (k - 1) + |text|;
      assert JoinedTo(texts, from + k) == JoinedTo(texts, from + (k - 1)) + text;
    }
  }

  /** A buffer region holds `n` finished copies of the text. */
  ghost predicate Holds<T>(buffer: seq<T>, at: nat, text: seq<T>, n: nat) {
    0 <= |text| * n && at + |text| * n <= |buffer| && buffer[at..at + |text| * n] == Times(text, n)
  }

  /** A slice of a slice. */
  lemma SubSlice<T>(s: seq<T>, from: nat, to: nat, lo: nat, hi: nat)
    requires from <= lo <= hi <= to <= |s|
    ensures |s[from..to]| == to - from && s[lo..hi] == s[from..to][lo - from..hi - from]
  {
    var inner := s[from..to];
    assert |s[lo..hi]| == |inner[lo - from..hi - from]|;
    assert forall i :: 0 <= i < hi - lo ==> s[lo..hi][i] == inner[lo - from..hi - from][i];
  }

  /** Everything outside the `size` elements from `to` on is as before. */
  ghost predicate SameAround<T>(now: seq<T>, was: seq<T>, to: nat, size: nat) {
    && |now| == |was| && to + size <= |was|
    && now[..to] == was[..to] && now[to + size..] == was[to + size..]
  }

  /** `memcpy` inside one buffer; source and destination must not overlap. */
  method CopyWithin<T>(buffer: array<T>, to: nat, from: nat, count: nat)
    requires from + count <= to || to + count <= from
    requires from + count <= buffer.Length && to + count <= buffer.Length
    modifies buffer
    ensures SameAround(buffer[..], old(buffer[..]), to, count)
    ensures buffer[to..to + count] == old(buffer[from..from + count])
  {
    forall i | 0 <= i < count {
      buffer[to + i] := buffer[from + i];
    }
  }

  /** `memcpy` from memory outside the buffer. */
  method CopyFrom<T>(buffer: array<T>, to: nat, text: seq<T>)
    requires to + |text| <= buffer.Length
    modifies buffer
    ensures SameAround(buffer[..], old(buffer[..]), to, |text|) && buffer[to..to + |text|] == text
  {
    forall i | 0 <= i < |text| {
      buffer[to + i] := text[i];
    }
  }

  /** What a repetition starts from: the text itself, or earlier finished copies in the same buffer. */
  datatype Source<T> = Outside(text: seq<T>) | Inside(at: nat, copies: nat)

  /** Shorter and longer repetitions in bytes. */
  lemma Scale(len: nat, m: nat, n: nat)
    ensures 0 <= len * m && 0 <= len * n && len * (m + n) == len * m + len * n
    ensures m <= n ==> len * m <= len * n
  {
  }

  /** Fewer copies are held as well, and further copies behind them extend the holding. */
  lemma HoldsFewer<T>(buffer: seq<T>, at: nat, text: seq<T>, m: nat, n: nat)
    requires Holds(buffer, at, text, n) && m <= n
    ensures Holds(buffer, at, text, m)
  {
    Scale(|text|, m, n);
    TimesPrefix(text, m, n);
    assert buffer[at..at + |text| * m] == buffer[at..at + |text| * n][..|text| * m];
  }

  lemma HoldsMore<T>(buffer: seq<T>, at: nat, text: seq<T>, m: nat, n: nat)
    requires Holds(buffer, at, text, m) && Holds(buffer, at + |text| * m, text, n)
    ensures Holds(buffer, at, text, m + n)
  {
    Scale(|text|, m, n);
    TimesSum(text, m, n);
    assert buffer[at..at + |text| * (m + n)]
        == buffer[at..at + |text| * m] + buffer[at + |text| * m..at + |text| * m + |text| * n];
  }

  /** Holding is a matter of the region alone. */
  lemma HoldsElsewhere<T>(buffer: seq<T>, at: nat, other: seq<T>, to: nat, text: seq<T>, n: nat)
    requires Holds(buffer, at, text, n) && to + |text| * n <= |other|
    requires other[to..to + |text| * n] == buffer[at..at + |text| * n]
    ensures Holds(other, to, text, n)
  {
  }

  lemma HoldsBefore<T>(was: seq<T>, now: seq<T>, at: nat, text: seq<T>, n: nat, to: nat, size: nat)
    requires Holds(was, at, text, n) && SameAround(now, was, to, size) && at + |text| * n <= to
    ensures Holds(now, at, text, n)
  {
    assert now[at..at + |text| * n] == now[..to][at..at + |text| * n];
    assert was[at..at + |text| * n] == was[..to][at..at + |text| * n];
  }

  lemma SameAroundWider<T>(now: seq<T>, was: seq<T>, inner: nat, innerSize: nat, to: nat, size: nat)
    requires SameAround(now, was, inner, innerSize)
    requires to <= inner && inner + innerSize <= to + size && to + size <= |was|
    ensures SameAround(now, was, to, size)
  {
    assert now[..to] == now[..inner][..to] && was[..to] == was[..inner][..to];
    var skip := to + size - (inner + innerSize);
    assert now[to + size..] == now[inner + innerSize..][skip..] && was[to + size..] == was[inner + innerSize..][skip..];
  }

  /** The first copies: one from outside, or as many finished ones as there are. */
  method FirstCopies<T>(buffer: array<T>, to: nat, source: Source<T>, ghost text: seq<T>, len: nat, n: nat)
    returns (written: nat)
    requires len == |text| && 1 <= n && 0 <= len * n && to + len * n <= buffer.Length
    requires Ready(buffer[..to], source, text)
    modifies buffer
    ensures 1 <= written <= n && Holds(buffer[..], to, text, written)
    ensures SameAround(buffer[..], old(buffer[..]), to, len * n)
  {
    hide Holds, SameAround, Times;
    ghost var was := buffer[..];
    match source {
      case Outside(t) =>
        written := 1;
        Scale(len, 1, n);
        CopyFrom(buffer, to, t);
        OneCopy(buffer[..], to, text);
        SameAroundWider(buffer[..], was, to, len, to, len * n);
      case Inside(at, copies) =>
        written := Min(n, copies);
        Scale(len, written, n);
        CopyFinished(buffer, to, at, text, len, copies, written);
        Scale(len, written, n);
        SameAroundWider(buffer[..], was, to, len * written, to, len * n);
    }
  }

  lemma OneCopy<T>(buffer: seq<T>, at: nat, text: seq<T>)
    requires at + |text| <= |buffer| && buffer[at..at + |text|] == text
    ensures Holds(buffer, at, text, 1)
  {
    assert Times(text, 1) == Times(text, 0) + text;
    assert |text| * 1 == |text|;
  }

  /** The leading `m` of the finished copies at `at` are copied to `to`. */
  method CopyFinished<T>(buffer: array<T>, to: nat, at: nat, ghost text: seq<T>, len: nat, ghost copies: nat, m: nat)
    requires len == |text| && to <= buffer.Length && Holds(buffer[..to], at, text, copies) && m <= copies
    requires 0 <= len * m && to + len * m <= buffer.Length
    modifies buffer
    ensures Holds(buffer[..], to, text, m) && SameAround(buffer[..], old(buffer[..]), to, len * m)
  {
    Scale(len, m, copies);
    HoldsFewer(buffer[..to], at, text, m, copies);
    ghost var was := buffer[..];
    assert was[..to][at..at + len * m] == was[at..at + len * m];
    hide SameAround, Times;
    CopyWithin(buffer, to, at, len * m);
    HoldsElsewhere(was[..to], at, buffer[..], to, text, m);
  }

  ghost predicate Ready<T>(before: seq<T>, source: Source<T>, text: seq<T>) {
    match source
    case Outside(t) => t == text
    case Inside(at, copies) => 1 <= copies && Holds(before, at, text, copies)
  }

  /** One doubling step: as many of the copies made so far as are still missing. */
  method DoubleCopies<T>(buffer: array<T>, to: nat, ghost text: seq<T>, len: nat, n: nat, written: nat)
    returns (more: nat)
    requires len == |text| && 1 <= written < n && 0 <= len * n && to + len * n <= buffer.Length
    requires Holds(buffer[..], to, text, written)
    modifies buffer
    ensures written < more <= n && Holds(buffer[..], to, text, more)
    ensures SameAround(buffer[..], old(buffer[..]), to, len * n)
  {
    hide Holds, Times, SameAround;
    var step := Min(written, n - written);
    more := written + step;
    Scale(len, written, step);
    Scale(len, step, written);
    Scale(len, more, n);
    ghost var was := buffer[..];
    HoldsFewer(was, to, text, step, written);
    var writeAt := to + len * written;
    CopyWithin(buffer, writeAt, to, len * step);
    HoldsBefore(was, buffer[..], to, text, written, writeAt, len * step);
    HoldsElsewhere(was, to, buffer[..], writeAt, text, step);
    HoldsMore(buffer[..], to, text, written, step);
    SameAroundWider(buffer[..], was, writeAt, len * step, to, len * n);
  }

  /**
    * `Utils::multiplyString`: `n` copies at `to`. The first copies come from the source, then the copies already made
    * are doubled; no copy overlaps its source and nothing else in the buffer changes.
    */
  method MultiplyString<T>(buffer: array<T>, to: nat, source: Source<T>, ghost text: seq<T>, len: nat, n: nat)
    requires len == |text| && 0 <= len * n && to + len * n <= buffer.Length
    requires Ready(buffer[..to], source, text)
    modifies buffer
    ensures Holds(buffer[..], to, text, n) && SameAround(buffer[..], old(buffer[..]), to, len * n)
  {
    hide Holds, Ready, Times;
    if n == 0 || len == 0 {
      NothingToHold(buffer[..], to, text, n);
      return;
    }
    var written := FirstCopies(buffer, to, source, text, len, n);
    while written < n
      invariant 1 <= written <= n && Holds(buffer[..], to, text, written)
      invariant SameAround(buffer[..], old(buffer[..]), to, len * n)
      decreases n - written
    {
      written := DoubleCopies(buffer, to, text, len, n, written);
    }
  }

  lemma NothingToHold<T>(buffer: seq<T>, at: nat, text: seq<T>, n: nat)
    requires (n == 0 || |text| == 0) && at <= |buffer|
    ensures Holds(buffer, at, text, n)
  {
    TimesLength(text, n);
    assert |text| * n == 0;
  }
}
