// Serializing a std::map from addresses to values. ser gives the bytes a value is written as; a
// null linked_ptr is written as none.

module StdMapSerializers {
  import opened Addresses
  import opened SortedKeys
  import opened Bytes
  import opened MapLayout
  import opened Writing
  import opened StaticMaps

  // An entry of the std::map, in the order of the keys.
  datatype Pair<+V> = Pair(first: Address, second: V)

  function Keys<V>(m: seq<Pair<V>>): seq<Address> {
    seq(|m|, i requires 0 <= i < |m| => m[i].first)
  }

  function Values<V>(m: seq<Pair<V>>, ser: V -> seq<Byte>): seq<seq<Byte>> {
    seq(|m|, i requires 0 <= i < |m| => ser(m[i].second))
  }

  function StdMapBytes<V>(m: seq<Pair<V>>, ser: V -> seq<Byte>): seq<Byte> {
    MapBytes(Keys(m), Values(m, ser))
  }

  method SizeOf<V>(m: seq<Pair<V>>, ser: V -> seq<Byte>) returns (size: nat)
    ensures size == |StdMapBytes(m, ser)|
  {
    size := (1 + |m|) * 4;
    ghost var values := Values(m, ser);
    MapSize(Keys(m), values);
    for index := 0 to |m|
      invariant size == 4 + 4 * |m| + 8 * index + |Concat(values[..index])|
    {
      ConcatSnoc(values, index);
      size := size + 8;
      size := size + |ser(m[index].second)|;
    }
    assert values[..|m|] == values;
  }

  // Fills exactly the bytes from dest up to the address returned.
  method Write<V>(m: seq<Pair<V>>, ser: V -> seq<Byte>, buf: array<Byte>, dest: nat) returns (end: nat)
    requires dest + |StdMapBytes(m, ser)| <= buf.Length
    modifies buf
    ensures end == dest + |StdMapBytes(m, ser)|
    ensures buf[..] == Overwrite(old(buf[..]), dest, StdMapBytes(m, ser))
  {
    hide Overwrite;
    hide Concat;
    hide AllHeld;
    hide Areas;
    hide MapBytes;
    ghost var s0, keys, values := buf[..], Keys(m), Values(m, ser);
    MapSize(keys, values);
    StartMap(s0, dest, keys, values);
    var startAddress := dest;
    end := WriteBytes(U32(|m|), buf, dest);
    var offsets := end;
    end := end + 4 * |m|;
    var keyAddress := end;
    end := end + 8 * |m|;
    OffsetOfFirst(values);
    for index := 0 to |m|
      invariant keyAddress == startAddress + 4 + 4 * |keys| + 8 * index
      invariant end == startAddress + OffsetOf(values, index)
      invariant AllHeld(buf[..], Areas(s0, startAddress, keys, values, index))
    {
      WriteNode(buf[..], s0, startAddress, keys, values, index);
      OffsetOfNext(values, index);
      var _ := WriteBytes(U32(end - startAddress), buf, offsets + 4 * index);
      keyAddress := WriteBytes(U64(m[index].first), buf, keyAddress);
      end := WriteBytes(ser(m[index].second), buf, end);
    }
    FinishMap(buf[..], s0, startAddress, keys, values);
    OffsetOfLast(keys, values);
  }

  // The size that Serialize allocates, kept in 32 bits.
  method SizeToAlloc<V>(m: seq<Pair<V>>, ser: V -> seq<Byte>) returns (size: nat)
    ensures size == In32Bits(|StdMapBytes(m, ser)|)
    ensures size == |StdMapBytes(m, ser)| <==> |StdMapBytes(m, ser)| < U32_LIMIT
  {
    hide StdMapBytes;
    size := SizeOf(m, ser);
    size := In32Bits(size);
  }

  // Allocates the bytes and fills them.
  method Serialize<V>(m: seq<Pair<V>>, ser: V -> seq<Byte>) returns (data: array<Byte>)
    requires |StdMapBytes(m, ser)| < U32_LIMIT
    ensures fresh(data) && data[..] == StdMapBytes(m, ser)
  {
    var sizeToAlloc := SizeToAlloc(m, ser);
    data := new Byte[sizeToAlloc];
    var _ := Write(m, ser, data, 0);
  }

  // One value of 2^32 bytes: 16 bytes would be allocated.
  lemma LargeMapGetsTooLittle<V>(v: V, ser: V -> seq<Byte>)
    requires |ser(v)| == U32_LIMIT
    ensures |StdMapBytes([Pair(0, v)], ser)| == U32_LIMIT + 16
    ensures In32Bits(|StdMapBytes([Pair(0, v)], ser)|) == 16
  {
    hide MapBytes;
    var m := [Pair(0, v)];
    MapSize(Keys(m), Values(m, ser));
    ConcatSnoc(Values(m, ser), 0);
    assert Values(m, ser)[..1] == Values(m, ser) && Values(m, ser)[..0] == [];
  }

  // A serialized std::map passes the reader's validator exactly when every value but the last is
  // written as at least one byte. A null pointer before the last entry makes it fail.
  lemma WrittenStdMapValidates<V>(m: seq<Pair<V>>, ser: V -> seq<Byte>, memory: seq<Byte>, at: nat)
    requires StrictlyAscending(Keys(m)) && Fits(Keys(m), Values(m, ser)) && Holds(memory, at, StdMapBytes(m, ser))
    ensures StaticMap(memory, at).Readable()
    ensures StaticMap(memory, at).WellLaid() <==> forall i :: 0 <= i < |m| - 1 ==> ser(m[i].second) != []
  {
    WrittenMapValidates(memory, at, Keys(m), Values(m, ser));
    assert forall i :: 0 <= i < |m| ==> Values(m, ser)[i] == ser(m[i].second);
  }

  // Two entries, the first a null pointer: written correctly, refused by the validator.
  lemma NullFirstValueIsRefused(memory: seq<Byte>, ser: bool -> seq<Byte>)
    requires ser(false) == [] && ser(true) == [1]
    requires memory == StdMapBytes([Pair(16, false), Pair(32, true)], ser)
    ensures StaticMap(memory, 0).Readable() && !StaticMap(memory, 0).WellLaid()
  {
    hide MapBytes;
    hide Encode;
    hide StaticMap.Readable;
    hide StaticMap.WellLaid;
    var m := [Pair(16, false), Pair(32, true)];
    MapSize(Keys(m), Values(m, ser));
    var v := Values(m, ser);
    ConcatSnoc(v, 0);
    ConcatSnoc(v, 1);
    assert v[..2] == v && v[..0] == [];
    WrittenStdMapValidates(m, ser, memory, 0);
    assert ser(m[0].second) == [];
  }
}
