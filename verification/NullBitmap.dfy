/** Null maps as they are stored, and the wrapper that expands them into a bitset on demand. */
module NullBitmap {
  import opened Bitmap

  datatype Kind = ALLZEROS | ALLONES | FLIPPED | REGULAR

  /** A stored null map: its kind and the members of the Roaring bitmap, none for the two constant kinds. */
  datatype Stored = Stored(kind: Kind, rows: set<nat>)
  {
    /** The bit the stored map stands for. */
    predicate Bit(row: nat) {
      match kind
      case ALLZEROS => false
      case ALLONES => true
      case REGULAR => row in rows
      case FLIPPED => row !in rows
    }

    predicate Constant() { kind == ALLZEROS || kind == ALLONES }

    /** Members are rows; a constant kind stores none. */
    predicate Fits(n: nat) { Within(rows, n) && (Constant() ==> rows == {}) }

    function Bits(n: nat): (bits: seq<bool>)
      ensures |bits| == n && forall i :: 0 <= i < n ==> bits[i] == Bit(i)
    {
      seq(n, i requires 0 <= i < n => Bit(i))
    }
  }

  function Ones(bits: seq<bool>, n: nat): (ones: nat)
    requires n <= |bits|
    ensures ones <= n
  {
    if n == 0 then 0 else Ones(bits, n - 1) + if bits[n - 1] then 1 else 0
  }

  // ---------------------------------------------------------------- counting

  /** The rows below `n` that carry `value`. */
  function Carrying(bits: seq<bool>, value: bool, n: nat): set<nat>
    requires n <= |bits|
  {
    set i: nat | i < n && bits[i] == value
  }

  lemma {:induction false} CarryingSize(bits: seq<bool>, n: nat)
    requires n <= |bits|
    ensures |Carrying(bits, true, n)| == Ones(bits, n) && |Carrying(bits, false, n)| == n - Ones(bits, n)
  {
    if n > 0 {
      CarryingSize(bits, n - 1);
      var v := bits[n - 1];
      assert Carrying(bits, v, n) == Carrying(bits, v, n - 1) + {n - 1};
      assert Carrying(bits, !v, n) == Carrying(bits, !v, n - 1);
    } else {
      assert Carrying(bits, true, 0) == {} && Carrying(bits, false, 0) == {};
    }
  }

  lemma {:induction false} ConstantOnes(bits: seq<bool>, n: nat)
    requires n <= |bits|
    ensures Ones(bits, n) == 0 <==> forall i :: 0 <= i < n ==> !bits[i]
    ensures Ones(bits, n) == n <==> forall i :: 0 <= i < n ==> bits[i]
  {
    if n > 0 {
      ConstantOnes(bits, n - 1);
    }
  }

  // ---------------------------------------------------------------- encoder

  /**
    * `RoaringBitmap::compress`: the stored map stands for exactly the given bits, constant maps store nothing, and at
    * most half of the rows (rounded up) become members.
    */
  method Compress(flags: seq<bool>) returns (stored: Stored)
    ensures stored.Fits(|flags|) && stored.Bits(|flags|) == flags
    ensures |stored.rows| <= (|flags| + 1) / 2
    ensures stored.kind == ALLZEROS <==> forall i :: 0 <= i < |flags| ==> !flags[i]
    ensures stored.kind == ALLONES <==> |flags| > 0 && forall i :: 0 <= i < |flags| ==> flags[i]
    ensures stored.kind == REGULAR <==> 0 < Ones(flags, |flags|) < |flags| / 2
  {
    var n := |flags|;
    var ones := CountOnes(flags);
    ConstantOnes(flags, n);
    if ones == 0 {
      return Stored(ALLZEROS, {});
    } else if ones == n {
      return Stored(ALLONES, {});
    }
    var check := ones < n / 2;
    CarryingSize(flags, n);
    hide Ones;
    var rows := Members(flags, check);
    stored := Stored(if check then REGULAR else FLIPPED, rows);
  }

  method CountOnes(flags: seq<bool>) returns (ones: nat)
    ensures ones == Ones(flags, |flags|)
  {
    ones := 0;
    var i := 0;
    while i < |flags|
      invariant 0 <= i <= |flags| && ones == Ones(flags, i)
    {
      ones := ones + if flags[i] then 1 else 0;
      i := i + 1;
    }
  }

  method Members(flags: seq<bool>, check: bool) returns (rows: set<nat>)
    ensures rows == Carrying(flags, check, |flags|)
  {
    rows := {};
    var row := 0;
    while row < |flags|
      invariant 0 <= row <= |flags| && rows == Carrying(flags, check, row)
    {
      if flags[row] == check {
        rows := rows + {row};
      }
      row := row + 1;
    }
  }

  // ---------------------------------------------------------------- wrapper

  /** `boost::dynamic_bitset`. */
  class Bitset {
    var bits: seq<bool>

    constructor (n: nat)
      ensures bits == seq(n, _ => false)
    {
      bits := seq(n, _ => false);
    }
  }

  class BitmapWrapper {
    const stored: Stored
    const tuples: nat
    var cardinality: nat
    var bitset: Bitset?
    var initialized: bool

    /** An initialised bitset shows the stored map; one that is merely lent may hold anything. */
    ghost predicate Valid()
      reads this, bitset
    {
      && stored.Fits(tuples) && cardinality == Ones(stored.Bits(tuples), tuples)
      && (initialized ==> bitset != null && bitset.bits == stored.Bits(tuples))
      && (bitset != null ==> |bitset.bits| == tuples)
    }

    /** The cardinality is known without expanding anything. */
    constructor (stored: Stored, tuples: nat, bitset: Bitset?)
      requires stored.Fits(tuples) && (bitset != null ==> |bitset.bits| == tuples)
      ensures Valid() && this.stored == stored && this.tuples == tuples && this.bitset == bitset && !initialized
    {
      CardinalityKnown(stored, tuples);
      this.stored, this.tuples, this.bitset, initialized := stored, tuples, bitset, false;
      if stored.kind == ALLONES {
        cardinality := tuples;
      } else if stored.kind == ALLZEROS {
        cardinality := 0;
      } else {
        cardinality := if stored.kind == FLIPPED then tuples - |stored.rows| else |stored.rows|;
      }
    }

    /** `get_bitset`: expands into the lent bitset, or into one of its own when none was lent. */
    method GetBitset() returns (b: Bitset)
      requires Valid()
      modifies this`bitset, this`initialized, bitset
      ensures Valid() && initialized && b == bitset && b.bits == stored.Bits(tuples)
      ensures if old(bitset) == null then fresh(b) else b == old(bitset)
    {
      if initialized {
        return bitset;
      }
      if bitset == null {
        bitset := new Bitset(tuples);
      }
      b := bitset;
      match stored.kind {
        case ALLONES => b.bits := seq(tuples, _ => true);
        case ALLZEROS => b.bits := seq(tuples, _ => false);
        case REGULAR =>
          b.bits := seq(tuples, _ => false);
          SetRows(b, stored.rows, true, tuples);
        case FLIPPED =>
          b.bits := seq(tuples, _ => true);
          SetRows(b, stored.rows, false, tuples);
      }
      initialized := true;
    }

    method Test(row: nat) returns (bit: bool)
      requires Valid() && row < tuples
      modifies this`bitset, this`initialized, bitset
      ensures Valid() && initialized && bit == stored.Bit(row)
      ensures if old(bitset) == null then fresh(bitset) else bitset == old(bitset)
    {
      var b := GetBitset();
      bit := b.bits[row];
    }

    /** `writeBITMAP`: constant kinds are written without a bitset. */
    method WriteBitmap(dest: array<bool>)
      requires Valid() && tuples <= dest.Length
      modifies this`bitset, this`initialized, bitset, dest
      ensures Valid() && dest[..tuples] == stored.Bits(tuples)
      ensures forall i :: tuples <= i < dest.Length ==> dest[i] == old(dest[i])
      ensures if old(bitset) != null then bitset == old(bitset) else bitset == null || fresh(bitset)
      ensures old(!initialized && stored.Constant()) ==> bitset == old(bitset) && !initialized
      ensures old(initialized) ==> initialized
    {
      var i := 0;
      while i < tuples
        invariant 0 <= i <= tuples && Valid()
        invariant forall j :: 0 <= j < i ==> dest[j] == stored.Bit(j)
        invariant forall j :: tuples <= j < dest.Length ==> dest[j] == old(dest[j])
        invariant if old(bitset) != null then bitset == old(bitset) else bitset == null || fresh(bitset)
        invariant old(!initialized && stored.Constant()) ==> bitset == old(bitset) && !initialized
        invariant old(initialized) ==> initialized
      {
        if stored.kind == ALLONES {
          dest[i] := true;
        } else if stored.kind == ALLZEROS {
          dest[i] := false;
        } else {
          var bit := Test(i);
          dest[i] := bit;
        }
        i := i + 1;
      }
    }

    /** `releaseBitset`: the bitset stays with whoever lent it. */
    method ReleaseBitset()
      requires Valid()
      modifies this`bitset, this`initialized
      ensures Valid() && bitset == null && !initialized
    {
      bitset, initialized := null, false;
    }
  }

  /** `Roaring::iterate` with a callback that sets or clears one bit. */
  method SetRows(b: Bitset, rows: set<nat>, value: bool, n: nat)
    requires Within(rows, n) && |b.bits| == n && forall i :: 0 <= i < n ==> b.bits[i] == !value
    modifies b
    ensures |b.bits| == n && forall i :: 0 <= i < n ==> b.bits[i] == if i in rows then value else !value
  {
    var order := Ascending(rows, n);
    var k := 0;
    while k < |order|
      invariant 0 <= k <= |order| && |b.bits| == n
      invariant forall i :: 0 <= i < n ==> b.bits[i] == if i in order[..k] then value else !value
    {
      b.bits := b.bits[order[k] := value];
      k := k + 1;
    }
    forall i | 0 <= i < n ensures i in order <==> i in rows {
      if i in rows {
        RankIsPosition(rows, n, i);
      }
    }
  }

  lemma CardinalityKnown(stored: Stored, n: nat)
    requires stored.Fits(n)
    ensures |stored.rows| <= n
    ensures Ones(stored.Bits(n), n) ==
      match stored.kind
      case ALLONES => n
      case ALLZEROS => 0
      case REGULAR => |stored.rows|
      case FLIPPED => n - |stored.rows|
  {
    var bits := stored.Bits(n);
    CarryingSize(bits, n);
    ConstantOnes(bits, n);
    if stored.kind == REGULAR {
      assert Carrying(bits, true, n) == stored.rows;
    } else if stored.kind == FLIPPED {
      assert Carrying(bits, false, n) == stored.rows;
    }
  }
}
