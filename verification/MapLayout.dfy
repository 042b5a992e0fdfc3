// The layout of a serialized map: the number of nodes, the offset of each value, the keys, and
// the values one after the other.

module MapLayout {
  import opened Addresses
  import opened Bytes

  function KeyBlocks(keys: seq<Address>): seq<seq<Byte>> {
    seq(|keys|, i requires 0 <= i < |keys| => U64(keys[i]))
  }

  // Where value i stands, counted from the start of the map.
  function OffsetOf(values: seq<seq<Byte>>, i: nat): nat
    requires i <= |values|
  {
    4 + 12 * |values| + |Concat(values[..i])|
  }

  lemma OffsetOfFirst(values: seq<seq<Byte>>)
    ensures OffsetOf(values, 0) == 4 + 12 * |values|
  {
  }

  lemma OffsetOfNext(values: seq<seq<Byte>>, i: nat)
    requires i < |values|
    ensures OffsetOf(values, i + 1) == OffsetOf(values, i) + |values[i]|
  {
    ConcatSnoc(values, i);
  }

  function OffsetBlocks(values: seq<seq<Byte>>): seq<seq<Byte>> {
    seq(|values|, i requires 0 <= i < |values| => U32(OffsetOf(values, i)))
  }

  function MapBytes(keys: seq<Address>, values: seq<seq<Byte>>): seq<Byte>
    requires |keys| == |values|
  {
    U32(|keys|) + (Concat(OffsetBlocks(values)) + (Concat(KeyBlocks(keys)) + Concat(values)))
  }

  lemma MapSize(keys: seq<Address>, values: seq<seq<Byte>>)
    requires |keys| == |values|
    ensures |Concat(OffsetBlocks(values))| == 4 * |keys| && |Concat(KeyBlocks(keys))| == 8 * |keys|
    ensures |MapBytes(keys, values)| == 4 + 12 * |keys| + |Concat(values)|
  {
    ConcatFixed(OffsetBlocks(values), 4);
    ConcatFixed(KeyBlocks(keys), 8);
  }

  lemma OffsetOfLast(keys: seq<Address>, values: seq<seq<Byte>>)
    requires |keys| == |values|
    ensures OffsetOf(values, |values|) == |MapBytes(keys, values)|
  {
    MapSize(keys, values);
    assert values[..|values|] == values;
  }

  // Maps the format can describe: offsets of 32 bits and a count that is not negative as an int32.
  ghost predicate Fits(keys: seq<Address>, values: seq<seq<Byte>>) {
    |keys| == |values| < 0x8000_0000 && |MapBytes(keys, values)| < U32_LIMIT
  }

  lemma MapAreas(memory: seq<Byte>, at: nat, keys: seq<Address>, values: seq<seq<Byte>>)
    requires |keys| == |values|
    ensures
      Holds(memory, at, MapBytes(keys, values)) <==>
      && Holds(memory, at, U32(|keys|))
      && Holds(memory, at + 4, Concat(OffsetBlocks(values)))
      && Holds(memory, at + 4 + 4 * |keys|, Concat(KeyBlocks(keys)))
      && Holds(memory, at + 4 + 12 * |keys|, Concat(values))
  {
    hide Holds;
    hide Concat;
    MapSize(keys, values);
    var a, b, c, d := U32(|keys|), Concat(OffsetBlocks(values)), Concat(KeyBlocks(keys)), Concat(values);
    HoldsConcat(memory, at, a, b + (c + d));
    HoldsConcat(memory, at + 4, b, c + d);
    HoldsConcat(memory, at + 4 + 4 * |keys|, c, d);
  }

  lemma {:induction false} PrefixLength(values: seq<seq<Byte>>, i: nat)
    requires i <= |values|
    ensures |Concat(values[..i])| <= |Concat(values)|
  {
    ConcatSplit(values, i);
  }

  lemma OffsetReadsBack(memory: seq<Byte>, at: nat, values: seq<seq<Byte>>, i: nat)
    requires i < |values| && OffsetOf(values, i) < U32_LIMIT && Holds(memory, at, Concat(OffsetBlocks(values)))
    ensures at + 4 * i + 4 <= |memory| && ReadU32(memory, at + 4 * i) == OffsetOf(values, i)
  {
    hide Concat;
    var os := OffsetBlocks(values);
    HoldsBlock(memory, at, os, i);
    ConcatFixed(os[..i], 4);
    ReadsBackU32(memory, at + 4 * i, OffsetOf(values, i));
  }

  lemma KeyReadsBack(memory: seq<Byte>, at: nat, keys: seq<Address>, i: nat)
    requires i < |keys| && Holds(memory, at, Concat(KeyBlocks(keys)))
    ensures at + 8 * i + 8 <= |memory| && ReadU64(memory, at + 8 * i) == keys[i]
  {
    hide Concat;
    var ks := KeyBlocks(keys);
    HoldsBlock(memory, at, ks, i);
    ConcatFixed(ks[..i], 8);
    ReadsBackU64(memory, at + 8 * i, keys[i]);
  }

  lemma OffsetsFit(keys: seq<Address>, values: seq<seq<Byte>>, i: nat)
    requires Fits(keys, values) && i <= |keys|
    ensures OffsetOf(values, i) < U32_LIMIT
  {
    MapSize(keys, values);
    PrefixLength(values, i);
  }

  lemma NodeReadsBack(memory: seq<Byte>, at: nat, keys: seq<Address>, values: seq<seq<Byte>>, i: nat)
    requires Fits(keys, values) && Holds(memory, at, MapBytes(keys, values)) && i < |keys|
    ensures at + 4 + 12 * |keys| <= |memory|
    ensures ReadU32(memory, at + 4 + 4 * i) == OffsetOf(values, i) < U32_LIMIT
    ensures ReadU64(memory, at + 4 + 4 * |keys| + 8 * i) == keys[i]
    ensures Holds(memory, at + OffsetOf(values, i), values[i])
  {
    hide Holds;
    hide MapBytes;
    hide Concat;
    hide OffsetBlocks;
    hide KeyBlocks;
    hide ReadU32;
    hide ReadU64;
    MapSize(keys, values);
    HoldsFits(memory, at, MapBytes(keys, values));
    MapAreas(memory, at, keys, values);
    OffsetsFit(keys, values, i);
    OffsetReadsBack(memory, at + 4, values, i);
    KeyReadsBack(memory, at + 4 + 4 * |keys|, keys, i);
    HoldsBlock(memory, at + 4 + 12 * |keys|, values, i);
  }

  lemma ValueFits(keys: seq<Address>, values: seq<seq<Byte>>, k: nat)
    requires Fits(keys, values) && k < |values|
    ensures |values[k]| < U32_LIMIT
  {
    MapSize(keys, values);
    PrefixLength(values, k + 1);
    ConcatSnoc(values, k);
  }

  // Count, offsets, keys and values all read back.
  lemma MapReadsBack(memory: seq<Byte>, at: nat, keys: seq<Address>, values: seq<seq<Byte>>)
    requires Fits(keys, values) && Holds(memory, at, MapBytes(keys, values))
    ensures at + 4 + 12 * |keys| <= |memory| && ReadI32(memory, at) == |keys|
    ensures forall i :: 0 <= i < |keys| ==> ReadU32(memory, at + 4 + 4 * i) == OffsetOf(values, i) < U32_LIMIT
    ensures forall i :: 0 <= i < |keys| ==> ReadU64(memory, at + 4 + 4 * |keys| + 8 * i) == keys[i]
    ensures forall i :: 0 <= i < |keys| ==> Holds(memory, at + OffsetOf(values, i), values[i])
  {
    hide Concat;
    hide Encode;
    hide Decode;
    MapSize(keys, values);
    assert at + 4 + 12 * |keys| <= |memory|;
    MapAreas(memory, at, keys, values);
    ReadsBackU32(memory, at, |keys|);
    hide Holds;
    hide MapBytes;
    hide OffsetOf;
    hide ReadU32;
    hide ReadU64;
    hide U32;
    forall i | 0 <= i < |keys|
      ensures ReadU32(memory, at + 4 + 4 * i) == OffsetOf(values, i) < U32_LIMIT
      ensures ReadU64(memory, at + 4 + 4 * |keys| + 8 * i) == keys[i]
      ensures Holds(memory, at + OffsetOf(values, i), values[i])
    {
      NodeReadsBack(memory, at, keys, values, i);
    }
  }
}
