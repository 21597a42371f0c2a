/** The reader's null-bitmap cache: wrappers and bitsets per chunk, reused, dropped or handed over. */
module BitmapCache {
  import opened NullBitmap

  datatype Meta = Meta(nullmap: Stored, tuples: nat)

  /** Calls a user of the reader may make, in any order. */
  datatype Request =
    | Get(chunk: nat)
    | Test(chunk: nat, row: nat)
    | Expand(chunk: nat)
    | Write(chunk: nat)
    | Cardinality(chunk: nat)
    | Release(chunk: nat)
    | ReleaseOwnership(chunk: nat)

  datatype Reply = Bits(bits: seq<bool>) | Count(ones: nat) | Nothing

  class Reader {
    const metas: seq<Meta>
    var wrappers: seq<BitmapWrapper?>
    var bitsets: seq<Bitset?>

    /** Chunk `i`: the wrapper shows the chunk's null map through the cached bitset, which only constant kinds lack. */
    ghost predicate ChunkOk(i: nat)
      requires i < |metas| == |wrappers| == |bitsets|
      reads this, wrappers[i], bitsets[i], if wrappers[i] == null then {} else {wrappers[i].bitset}
    {
      && metas[i].nullmap.Fits(metas[i].tuples)
      && (bitsets[i] != null ==> |bitsets[i].bits| == metas[i].tuples && !metas[i].nullmap.Constant())
      && (wrappers[i] != null ==>
            && wrappers[i].Valid() && wrappers[i].stored == metas[i].nullmap && wrappers[i].tuples == metas[i].tuples
            && if metas[i].nullmap.Constant() then wrappers[i].bitset != null <==> wrappers[i].initialized
               else bitsets[i] != null && wrappers[i].bitset == bitsets[i])
    }

    /** The objects chunk `i` keeps alive. */
    ghost function Owned(i: nat): set<object>
      requires i < |wrappers| == |bitsets|
      reads this, wrappers[i]
    {
      (if bitsets[i] == null then {} else {bitsets[i] as object}) +
      (if wrappers[i] == null then {} else
         {wrappers[i] as object} + if wrappers[i].bitset == null then {} else {wrappers[i].bitset as object})
    }

    ghost function Repr(): set<object>
      requires |wrappers| == |bitsets|
      reads this, wrappers
    {
      ReprTo(|wrappers|)
    }

    ghost function ReprTo(k: nat): set<object>
      requires k <= |wrappers| == |bitsets|
      reads this, wrappers
    {
      set i, o | 0 <= i < k && o in Owned(i) :: o
    }

    ghost predicate Valid()
      reads this, wrappers, bitsets, set i | 0 <= i < |wrappers| && wrappers[i] != null :: wrappers[i].bitset
    {
      && |wrappers| == |bitsets| == |metas|
      && (forall i: nat :: i < |metas| ==> ChunkOk(i))
      && (forall i: nat, j: nat :: i < j < |metas| ==> Owned(i) !! Owned(j))
    }

    /** Only chunk `i`'s pointers may differ, and what the cache newly owns was allocated since. */
    twostate predicate OnlyChunk(i: nat)
      requires old(|wrappers| == |bitsets|) && |wrappers| == |bitsets| && i < |wrappers|
      reads this, wrappers
    {
      && |wrappers| == old(|wrappers|)
      && (forall j: nat :: j < |wrappers| && j != i ==> Owned(j) == old(Owned(j)))
      && forall o :: o in Owned(i) && o !in old(Owned(i)) ==> fresh(o)
    }

    /** Chunk `j` looks as before. */
    twostate predicate Same(j: nat)
      requires old(|wrappers| == |bitsets|) && |wrappers| == |bitsets| == old(|wrappers|) && j < |wrappers|
      reads this, wrappers[j], bitsets[j], if wrappers[j] == null then {} else {wrappers[j].bitset}
    {
      && wrappers[j] == old(wrappers)[j] && bitsets[j] == old(bitsets)[j]
      && (bitsets[j] != null ==> unchanged(bitsets[j]))
      && (wrappers[j] != null ==> unchanged(wrappers[j]) && (wrappers[j].bitset != null ==>
        unchanged(wrappers[j].bitset)))
    }

    /** No two chunks share an object. */
    lemma Apart(i: nat)
      requires Valid() && i < |metas|
      ensures ChunkOk(i)
      ensures forall j: nat :: j < |metas| && j != i ==>
        && (bitsets[j] != null ==> bitsets[j] !in Owned(i))
        && (wrappers[j] != null ==> wrappers[j] !in Owned(i))
        && (wrappers[j] != null && wrappers[j].bitset != null ==> wrappers[j].bitset !in Owned(i))
    {
      forall j: nat | j < |metas| && j != i
        ensures bitsets[j] != null ==> bitsets[j] !in Owned(i)
        ensures wrappers[j] != null ==> wrappers[j] !in Owned(i)
        ensures wrappers[j] != null && wrappers[j].bitset != null ==> wrappers[j].bitset !in Owned(i)
      {
        assert Owned(i) !! Owned(j);
        assert bitsets[j] != null ==> bitsets[j] as object in Owned(j);
        assert wrappers[j] != null ==> wrappers[j] as object in Owned(j);
        assert wrappers[j] != null && wrappers[j].bitset != null ==> wrappers[j].bitset as object in Owned(j);
      }
    }

    /** A step that works on one chunk and allocates what it adds keeps the cache valid. */
    twostate lemma StepKeeps(i: nat)
      requires old(Valid()) && |wrappers| == |bitsets| == |metas| && i < |metas| && ChunkOk(i) && OnlyChunk(i)
      requires forall j: nat :: j < |metas| && j != i ==> Same(j)
      ensures Valid()
    {
      forall j: nat | j < |metas| ensures ChunkOk(j) {
        assert old(ChunkOk(j));
        assert j != i ==> Same(j);
      }
      forall j: nat, k: nat | j < k < |metas| ensures Owned(j) !! Owned(k) {
        assert old(Owned(j)) !! old(Owned(k));
        assert j != i ==> Same(j) && Owned(j) == old(Owned(j));
        assert k != i ==> Same(k) && Owned(k) == old(Owned(k));
      }
    }

    twostate lemma ReprGrows(i: nat)
      requires old(|wrappers| == |bitsets|) && |wrappers| == |bitsets| && i < |wrappers| && OnlyChunk(i)
      ensures fresh(Repr() - old(Repr()))
    {
      assert forall j: nat :: j < |wrappers| ==> old(Owned(j)) <= old(Repr());
      assert forall j: nat :: j < |wrappers| ==> Owned(j) <= old(Repr()) + Owned(i);
    }

    constructor (metas: seq<Meta>)
      requires forall i :: 0 <= i < |metas| ==> metas[i].nullmap.Fits(metas[i].tuples)
      ensures Valid() && this.metas == metas && Repr() == {}
    {
      this.metas := metas;
      wrappers, bitsets := seq(|metas|, _ => null), seq(|metas|, _ => null);
    }

    /** `getBitmap`: the cached wrapper, or a new one around the cached bitset. */
    method GetBitmap(i: nat) returns (w: BitmapWrapper)
      requires Valid() && i < |metas|
      modifies this
      ensures Valid() && OnlyChunk(i) && w == wrappers[i]
      ensures old(wrappers[i]) != null ==> w == old(wrappers[i]) && bitsets == old(bitsets)
      ensures old(wrappers[i]) == null ==> fresh(w) && !w.initialized && w.bitset == bitsets[i]
      ensures old(bitsets[i]) != null || metas[i].nullmap.Constant() ==> bitsets == old(bitsets)
    {
      Apart(i);
      if wrappers[i] != null {
        return wrappers[i];
      }
      var meta := metas[i];
      if bitsets[i] == null && !meta.nullmap.Constant() {
        var b := new Bitset(meta.tuples);
        bitsets := bitsets[i := b];
      }
      w := new BitmapWrapper(meta.nullmap, meta.tuples, bitsets[i]);
      wrappers := wrappers[i := w];
      StepKeeps(i);
    }

    /** `getBitmap(i)->get_bitset()`. */
    method Expand(i: nat) returns (b: Bitset)
      requires Valid() && i < |metas|
      modifies this, Owned(i)
      ensures Valid() && OnlyChunk(i) && b.bits == metas[i].nullmap.Bits(metas[i].tuples)
      ensures wrappers[i] != null && wrappers[i].initialized && wrappers[i].bitset == b
    {
      var w := GetBitmap(i);
      label got:
      Apart(i);
      b := w.GetBitset();
      StepKeeps@got(i);
    }

    /** `getBitmap(i)->test(row)`. */
    method TestRow(i: nat, row: nat) returns (bit: bool)
      requires Valid() && i < |metas| && row < metas[i].tuples
      modifies this, Owned(i)
      ensures Valid() && OnlyChunk(i) && bit == metas[i].nullmap.Bit(row)
    {
      var b := Expand(i);
      bit := b.bits[row];
    }

    /** `getBitmap(i)->cardinality()`. */
    method CardinalityOf(i: nat) returns (ones: nat)
      requires Valid() && i < |metas|
      modifies this
      ensures Valid() && OnlyChunk(i) && ones == Ones(metas[i].nullmap.Bits(metas[i].tuples), metas[i].tuples)
    {
      var w := GetBitmap(i);
      assert ChunkOk(i);
      ones := w.cardinality;
    }

    /** `getBitmap(i)->writeBITMAP()`. */
    method WriteAll(i: nat) returns (bits: seq<bool>)
      requires Valid() && i < |metas|
      modifies this, Owned(i)
      ensures Valid() && OnlyChunk(i) && bits == metas[i].nullmap.Bits(metas[i].tuples)
    {
      var w := GetBitmap(i);
      bits := WriteCached(i);
    }

    method WriteCached(i: nat) returns (bits: seq<bool>)
      requires Valid() && i < |metas| && wrappers[i] != null
      modifies Owned(i)
      ensures Valid() && OnlyChunk(i) && bits == metas[i].nullmap.Bits(metas[i].tuples)
    {
      Apart(i);
      var dest := new bool[wrappers[i].tuples];
      wrappers[i].WriteBitmap(dest);
      StepKeeps(i);
      bits := dest[..];
    }

    /**
      * `releaseBitmap`: the wrapper goes, the bitset stays for the next wrapper. Lost is exactly the bitset that a
      * wrapper of a constant map made for itself.
      */
    method ReleaseBitmap(i: nat)
      requires Valid() && i < |metas|
      modifies this, wrappers[i]
      ensures Valid() && OnlyChunk(i) && wrappers[i] == null && bitsets == old(bitsets)
      ensures forall b: Bitset :: b in old(Owned(i)) && b !in Owned(i) <==>
        metas[i].nullmap.Constant() && old(wrappers[i] != null && wrappers[i].initialized && wrappers[i].bitset == b)
    {
      Apart(i);
      if wrappers[i] == null {
        return;
      }
      wrappers[i].ReleaseBitset();
      wrappers := wrappers[i := null];
      StepKeeps(i);
    }

    /**
      * `releaseBitmapOwnership`: wrapper and bitset belong to the caller; the cache forgets both. A bitset that was
      * kept without a wrapper is lost.
      */
    method ReleaseBitmapOwnership(i: nat) returns (w: BitmapWrapper?)
      requires Valid() && i < |metas|
      modifies this
      ensures Valid() && OnlyChunk(i) && Owned(i) == {} && w == old(wrappers[i])
      ensures forall b: Bitset :: b in old(Owned(i)) && (w == null || b != w.bitset) <==>
        w == null && b == old(bitsets[i])
      ensures w != null ==> w.Valid() && w.stored == metas[i].nullmap && w !in Repr() && w.bitset !in Repr()
    {
      Apart(i);
      w := wrappers[i];
      wrappers, bitsets := wrappers[i := null], bitsets[i := null];
      StepKeeps(i);
    }

    /** The destructor: every bitset the cache still owns is deleted, none of them twice. */
    method Close() returns (deleted: seq<Bitset>)
      requires Valid()
      ensures forall b: Bitset :: b in deleted <==> b in Repr()
      ensures forall j, k :: 0 <= j < k < |deleted| ==> deleted[j] != deleted[k]
    {
      deleted := [];
      var i := 0;
      while i < |wrappers|
        invariant 0 <= i <= |wrappers|
        invariant forall b: Bitset :: b in deleted <==> b in ReprTo(i)
        invariant forall j, k :: 0 <= j < k < |deleted| ==> deleted[j] != deleted[k]
      {
        assert ChunkOk(i);
        assert forall j: nat :: j < i ==> Owned(j) !! Owned(i);
        assert ReprTo(i + 1) == ReprTo(i) + Owned(i) && ReprTo(i) !! Owned(i);
        assert forall b: Bitset :: b in Owned(i) <==>
          b == if wrappers[i] == null then bitsets[i] else wrappers[i].bitset;
        if wrappers[i] == null {
          if bitsets[i] != null {
            deleted := deleted + [bitsets[i]];
          }
        } else if wrappers[i].bitset != null {
          deleted := deleted + [wrappers[i].bitset];
        }
        i := i + 1;
      }
    }

    /** Any sequence of requests: every answer is the bit of the chunk's original null map. */
    method Serve(requests: seq<Request>) returns (answers: seq<Reply>)
      requires Valid()
      modifies this, Repr()
      ensures Valid() && answers == Answers(metas, requests)
    {
      answers := [];
      var k := 0;
      while k < |requests|
        invariant 0 <= k <= |requests| && Valid() && fresh(Repr() - old(Repr()))
        invariant answers == Answers(metas, requests[..k])
      {
        var answer := ServeOne(requests[k]);
        answers := answers + [answer];
        assert requests[..k + 1][..k] == requests[..k];
        k := k + 1;
      }
      assert requests[..k] == requests;
    }

    method ServeOne(request: Request) returns (answer: Reply)
      requires Valid()
      modifies this, Repr()
      ensures Valid() && fresh(Repr() - old(Repr())) && answer == Answer(metas, request)
    {
      hide ChunkOk, Stored.Bits, Ones;
      answer := Nothing;
      if request.chunk < |metas| {
        match request {
          case Get(i) =>
            var w := GetBitmap(i);
          case Test(i, row) =>
            if row < metas[i].tuples {
              var bit := TestRow(i, row);
              answer := Bits([bit]);
            }
          case Expand(i) =>
            var b := Expand(i);
            answer := Bits(b.bits);
          case Write(i) =>
            var bits := WriteAll(i);
            answer := Bits(bits);
          case Cardinality(i) =>
            var ones := CardinalityOf(i);
            answer := Count(ones);
          case Release(i) =>
            assert wrappers[i] != null ==> wrappers[i] as object in Owned(i);
            ReleaseBitmap(i);
          case ReleaseOwnership(i) =>
            var w := ReleaseBitmapOwnership(i);
        }
        ReprGrows(request.chunk);
      }
    }
  }

  /** Expanding an all-ones map and releasing it: the cache owns the bitset, then nobody does. */
  method LostOnRelease(reader: Reader) returns (b: Bitset)
    requires reader.Valid() && reader.metas == [Meta(Stored(ALLONES, {}), 1)]
    modifies reader, reader.Owned(0)
    ensures reader.Valid() && b !in reader.Repr() && b.bits == [true]
  {
    b := reader.Expand(0);
    assert b in reader.Owned(0);
    reader.ReleaseBitmap(0);
    assert b !in reader.Owned(0);
  }

  /** Loading, releasing and handing over: the caller gets no wrapper, and the bitset kept for the next one is gone. */
  method LostOnHandOver(reader: Reader) returns (b: Bitset, w: BitmapWrapper?)
    requires reader.Valid() && reader.metas == [Meta(Stored(REGULAR, {0}), 3)]
    modifies reader, reader.Owned(0)
    ensures reader.Valid() && w == null && b !in reader.Repr() && b.bits == [true, false, false]
  {
    b := reader.Expand(0);
    reader.ReleaseBitmap(0);
    w := reader.ReleaseBitmapOwnership(0);
  }

  /** What a request is answered with, from the stored null maps alone. */
  function Answer(metas: seq<Meta>, request: Request): Reply {
    if |metas| <= request.chunk then Nothing
    else match request
      case Test(i, row) => if row < metas[i].tuples then Bits([metas[i].nullmap.Bit(row)]) else Nothing
      case Expand(i) => Bits(metas[i].nullmap.Bits(metas[i].tuples))
      case Write(i) => Bits(metas[i].nullmap.Bits(metas[i].tuples))
      case Cardinality(i) => Count(Ones(metas[i].nullmap.Bits(metas[i].tuples), metas[i].tuples))
      case _ => Nothing
  }

  function Answers(metas: seq<Meta>, requests: seq<Request>): seq<Reply> {
    if |requests| == 0 then []
    else Answers(metas, requests[..|requests| - 1]) + [Answer(metas, requests[|requests| - 1])]
  }
}
