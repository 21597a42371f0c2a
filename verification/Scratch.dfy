/** Level-indexed scratch buffers: one growable stack of buffers per decoder, one buffer per cascade level. */
module ScratchStacks {
  /** The thread-local stacks of the integer decoders; the gather paths own stacks of their own. */
  datatype Stack =
    | RleValues | RleCounts | DictCodes | FrequencyExceptions | Bp64DecodeLow | Bp64DecodeHigh
    | GatherRleCounts | GatherRleOffsets | GatherDictCodes | GatherFrequencyExceptions | RandomAccess
    | Bp64GatherLow | Bp64GatherHigh | StringCodes | StringRunValues | StringRunCounts
    | DecimalNumbers | DecimalExponents
  {
    /** Used by full decodes. */
    predicate Decoding() {
      RleValues? || RleCounts? || DictCodes? || FrequencyExceptions? || Bp64DecodeLow? || Bp64DecodeHigh?
      || StringCodes? || StringRunValues? || StringRunCounts? || DecimalNumbers? || DecimalExponents?
    }
  }

  datatype Slot = Slot(stack: Stack, level: nat) {
    /** The slots that work at `from` or deeper may use; a full decode keeps to the decoding stacks. */
    predicate InUse(from: nat, decoding: bool) {
      from <= level && (decoding ==> stack.Decoding())
    }
  }

  class Scratch {
    /** `v[level]` of every stack; a slot never requested is an empty vector. */
    var buffers: map<Slot, array<int>>

    /** Distinct slots own distinct buffers. */
    ghost predicate Valid()
      reads this
    {
      forall s, t :: s in buffers && t in buffers && s != t ==> buffers[s] != buffers[t]
    }

    /** The buffers in use at cascade level `level` or deeper. */
    ghost function From(level: nat, decoding: bool): set<array<int>>
      reads this
    {
      set s | s in buffers && s.InUse(level, decoding) :: buffers[s]
    }

    /** The buffer of one slot, if it was ever requested. */
    ghost function At(slot: Slot): set<array<int>>
      reads this
    {
      if slot in buffers then {buffers[slot]} else {}
    }

    /** Only slots in use at `level` or deeper were touched; those keep their buffer or were given a larger, new one. */
    twostate predicate Evolved(level: nat, decoding: bool)
      reads this
    {
      && Valid()
      && (forall s :: s in old(buffers) ==>
            s in buffers && (buffers[s] == old(buffers)[s] || (s.InUse(level, decoding) && fresh(buffers[s]))))
      && (forall s :: s in buffers && s !in old(buffers) ==> s.InUse(level, decoding) && fresh(buffers[s]))
    }

    constructor ()
      ensures Valid() && buffers == map[]
    {
      buffers := map[];
    }

    /** `get_level_data`: at least `size` elements at the given level; growing keeps what was stored. */
    method GetLevelData(stack: Stack, size: nat, level: nat) returns (buffer: array<int>)
      requires Valid()
      modifies this
      ensures Evolved(level, stack.Decoding()) && size <= buffer.Length
      ensures buffers == old(buffers)[Slot(stack, level) := buffer]
      ensures if Slot(stack, level) in old(buffers)
              then var was := old(buffers)[Slot(stack, level)];
                was.Length <= buffer.Length && buffer[..was.Length] == old(was[..])
              else fresh(buffer)
    {
      var slot := Slot(stack, level);
      if slot in buffers && size <= buffers[slot].Length {
        buffer := buffers[slot];
        assert buffers == buffers[slot := buffer];
      } else {
        buffer := new int[size](_ => 0);
        if slot in buffers {
          var was := buffers[slot];
          forall i | 0 <= i < was.Length {
            buffer[i] := was[i];
          }
        }
        buffers := buffers[slot := buffer];
      }
    }
  }
}
