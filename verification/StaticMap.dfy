// StaticMap: read-only lookups in the bytes of a serialized map.

module StaticMaps {
  import opened Addresses
  import opened SortedKeys
  import opened Bytes
  import opened MapLayout

  datatype StaticMap = StaticMap(memory: seq<Byte>, rawData: nat) {

    function NumNodes(): int
      requires rawData + 4 <= |memory|
    {
      ReadI32(memory, rawData)
    }

    // The count, the offsets and the keys lie inside the memory.
    predicate Readable() {
      && rawData + 4 <= |memory|
      && 0 <= NumNodes() && rawData + 4 + 12 * NumNodes() <= |memory|
    }

    function OffsetAt(i: nat): nat
      requires Readable() && i < NumNodes()
    {
      ReadU32(memory, rawData + 4 + 4 * i)
    }

    function KeyAt(i: nat): Address
      requires Readable() && i < NumNodes()
    {
      ReadU64(memory, rawData + 4 + 4 * NumNodes() + 8 * i)
    }

    // Outside the map there is no key; zero stands for it.
    function GetKeyAtIndex(i: int): Address
      requires Readable()
    {
      if i < 0 || i >= NumNodes() then 0 else KeyAt(i)
    }

    function Keys(): (ks: seq<Address>)
      requires Readable()
      ensures |ks| == NumNodes()
    {
      seq(NumNodes(), i requires 0 <= i < NumNodes() => KeyAt(i))
    }

    method Find(key: Address) returns (index: nat)
      requires Readable() && StrictlyAscending(Keys())
      ensures if key in Keys() then index < NumNodes() && Keys()[index] == key else index == NumNodes()
    {
      var begin, end := 0, NumNodes();
      while begin < end
        invariant 0 <= begin <= end <= NumNodes()
        invariant forall i :: 0 <= i < begin ==> Keys()[i] < key
        invariant forall i :: end <= i < NumNodes() ==> key < Keys()[i]
      {
        var middle := begin + (end - begin) / 2;
        var k := GetKeyAtIndex(middle);
        assert k == Keys()[middle];
        if key == k {
          return middle;
        }
        if key < k {
          end := middle;
        } else {
          begin := middle + 1;
        }
      }
      return NumNodes();
    }

    // The same index a linear scan from the start would give.
    method LowerBound(key: Address) returns (index: nat)
      requires Readable() && StrictlyAscending(Keys())
      ensures index == SortedKeys.LowerBound(Keys(), key)
    {
      hide SortedKeys.LowerBound;
      var begin, end := 0, NumNodes();
      while begin < end
        invariant 0 <= begin <= end <= NumNodes()
        invariant forall i :: 0 <= i < begin ==> Keys()[i] < key
        invariant end < NumNodes() ==> key <= Keys()[end]
      {
        var middle := begin + (end - begin) / 2;
        var k := GetKeyAtIndex(middle);
        assert k == Keys()[middle];
        if key == k {
          LowerBoundIs(Keys(), key, middle);
          return middle;
        }
        if key < k {
          end := middle;
        } else {
          begin := middle + 1;
        }
      }
      LowerBoundIs(Keys(), key, begin);
      return begin;
    }

    method UpperBound(key: Address) returns (index: nat)
      requires Readable() && StrictlyAscending(Keys())
      ensures index == SortedKeys.UpperBound(Keys(), key)
    {
      hide SortedKeys.UpperBound;
      var begin, end := 0, NumNodes();
      while begin < end
        invariant 0 <= begin <= end <= NumNodes()
        invariant forall i :: 0 <= i < begin ==> Keys()[i] <= key
        invariant end < NumNodes() ==> key < Keys()[end]
      {
        var middle := begin + (end - begin) / 2;
        var k := GetKeyAtIndex(middle);
        assert k == Keys()[middle];
        if key == k {
          UpperBoundIs(Keys(), key, middle + 1);
          return middle + 1;
        }
        if key < k {
          end := middle;
        } else {
          begin := middle + 1;
        }
      }
      UpperBoundIs(Keys(), key, begin);
      return begin;
    }

    ghost predicate OffsetsAscend()
      requires Readable()
    {
      forall i :: 0 < i < NumNodes() ==> OffsetAt(i - 1) < OffsetAt(i)
    }

    // What the validator looks for.
    ghost predicate WellLaid()
      requires rawData + 4 <= |memory| && (NumNodes() >= 0 ==> Readable())
    {
      && NumNodes() >= 0
      && (NumNodes() > 0 ==> OffsetAt(0) == 4 * (NumNodes() + 1) + 8 * NumNodes())
      && OffsetsAscend()
      && StrictlyAscending(Keys())
    }

    method ValidateInMemoryStructure() returns (ok: bool)
      requires rawData + 4 <= |memory| && (NumNodes() >= 0 ==> Readable())
      ensures ok <==> WellLaid()
    {
      var numNodes := NumNodes();
      if numNodes < 0 {
        return false;
      }
      var nodeIndex := 0;
      if numNodes != 0 {
        var firstOffset := 4 * (numNodes + 1) + 8 * numNodes;
        if firstOffset > 0xffff_ffff {
          OffsetIsU32(0);
          return false;
        }
        if OffsetAt(nodeIndex) != firstOffset {
          return false;
        }
      }
      nodeIndex := 1;
      while nodeIndex < numNodes
        invariant 1 <= nodeIndex
        invariant forall i :: 0 < i < nodeIndex && i < numNodes ==> OffsetAt(i - 1) < OffsetAt(i)
        invariant forall i, j :: 0 <= i < j < nodeIndex && j < numNodes ==> Keys()[i] < Keys()[j]
      {
        if OffsetAt(nodeIndex) <= OffsetAt(nodeIndex - 1) {
          return false;
        }
        var k, before := GetKeyAtIndex(nodeIndex), GetKeyAtIndex(nodeIndex - 1);
        assert k == Keys()[nodeIndex] && before == Keys()[nodeIndex - 1];
        if k <= before {
          return false;
        }
        nodeIndex := nodeIndex + 1;
      }
      return true;
    }

    // In a buffer that validates, every value starts past the header, and in ascending order.
    lemma {:induction false} ValuesFollowHeader(i: nat)
      requires Readable() && WellLaid() && i < NumNodes()
      ensures OffsetAt(0) == 4 * (NumNodes() + 1) + 8 * NumNodes() && OffsetAt(i) >= OffsetAt(0) + i
    {
      if i > 0 {
        ValuesFollowHeader(i - 1);
        assert OffsetAt(i - 1) < OffsetAt(i);
      }
    }

    lemma OffsetIsU32(i: nat)
      requires Readable() && i < NumNodes()
      ensures OffsetAt(i) < U32_LIMIT
    {
      DecodeBound(memory[rawData + 4 + 4 * i..rawData + 4 + 4 * i + 4]);
      Widths();
    }

    // What a serialized map looks like from here.
    lemma ReadsMap(keys: seq<Address>, values: seq<seq<Byte>>)
      requires Fits(keys, values) && Holds(memory, rawData, MapBytes(keys, values))
      ensures Readable() && Keys() == keys
      ensures forall i :: 0 <= i < |keys| ==> OffsetAt(i) == OffsetOf(values, i)
      ensures forall i :: 0 <= i < |keys| ==> Holds(memory, rawData + OffsetAt(i), values[i])
    {
      hide MapBytes;
      hide Holds;
      hide OffsetOf;
      MapReadsBack(memory, rawData, keys, values);
      forall i | 0 <= i < |keys| ensures KeyAt(i) == keys[i] {
      }
    }
  }

  // A written map passes the validator exactly when its keys ascend and no value but the last is
  // empty: an empty value shares its offset with the next one.
  lemma WrittenMapValidates(memory: seq<Byte>, at: nat, keys: seq<Address>, values: seq<seq<Byte>>)
    requires Fits(keys, values) && Holds(memory, at, MapBytes(keys, values))
    ensures StaticMap(memory, at).Readable()
    ensures StaticMap(memory, at).WellLaid() <==>
            StrictlyAscending(keys) && forall i :: 0 <= i < |values| - 1 ==> values[i] != []
  {
    var s := StaticMap(memory, at);
    s.ReadsMap(keys, values);
    forall i | 0 <= i < |values| - 1 ensures s.OffsetAt(i) < s.OffsetAt(i + 1) <==> values[i] != [] {
      ConcatSnoc(values, i);
    }
    if s.WellLaid() {
      forall i | 0 <= i < |values| - 1 ensures values[i] != [] {
        assert s.OffsetAt(i + 1 - 1) < s.OffsetAt(i + 1);
      }
    }
    if |values| > 0 {
      assert OffsetOf(values, 0) == 4 + 12 * |values|;
    }
  }
}
