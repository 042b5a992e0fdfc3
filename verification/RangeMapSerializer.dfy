// Serializing the std::map of a RangeMap. Each value is the range's base followed by its entry; deltas are not
// written. ser gives the bytes an entry is written as.

module RangeMapSerializers {
  import opened StoredRanges
  import opened Bytes
  import opened MapLayout
  import opened Writing

  function Values<E>(m: seq<Stored<E>>, ser: E -> seq<Byte>): seq<seq<Byte>> {
    seq(|m|, i requires 0 <= i < |m| => U64(m[i].base) + ser(m[i].entry))
  }

  function RangeMapBytes<E>(m: seq<Stored<E>>, ser: E -> seq<Byte>): seq<Byte> {
    MapBytes(Keys(m), Values(m, ser))
  }

  method SizeOf<E>(m: seq<Stored<E>>, ser: E -> seq<Byte>) returns (size: nat)
    ensures size == |RangeMapBytes(m, ser)|
  {
    size := (1 + |m|) * 4;
    ghost var values := Values(m, ser);
    MapSize(Keys(m), values);
    for index := 0 to |m|
      invariant size == 4 + 4 * |m| + 8 * index + |Concat(values[..index])|
    {
      ConcatSnoc(values, index);
      size := size + 8;
      size := size + 8;
      size := size + |ser(m[index].entry)|;
    }
    assert values[..|m|] == values;
  }

  // Fills exactly the bytes from dest up to the address returned.
  method Write<E>(m: seq<Stored<E>>, ser: E -> seq<Byte>, buf: array<Byte>, dest: nat) returns (end: nat)
    requires dest + |RangeMapBytes(m, ser)| <= buf.Length
    modifies buf
    ensures end == dest + |RangeMapBytes(m, ser)|
    ensures buf[..] == Overwrite(old(buf[..]), dest, RangeMapBytes(m, ser))
  {
    hide Overwrite;
    hide Concat;
    hide AllHeld;
    hide Areas;
    hide MapBytes;
    ghost var s0, keys, values := buf[..], Keys(m), Values(m, ser);
    MapSize(keys, values);
    StartMap(s0, dest, keys, values);
    var startAddress := dest;
    end := WriteBytes(U32(|m|), buf, dest);
    var offsets := end;
    end := end + 4 * |m|;
    var keyAddress := end;
    end := end + 8 * |m|;
    OffsetOfFirst(values);
    for index := 0 to |m|
      invariant keyAddress == startAddress + 4 + 4 * |keys| + 8 * index
      invariant end == startAddress + OffsetOf(values, index)
      invariant AllHeld(buf[..], Areas(s0, startAddress, keys, values, index))
    {
      WriteNode(buf[..], s0, startAddress, keys, values, index);
      OffsetOfNext(values, index);
      var _ := WriteBytes(U32(end - startAddress), buf, offsets + 4 * index);
      keyAddress := WriteBytes(U64(m[index].high), buf, keyAddress);
      OverwriteTwice(buf[..], end, U64(m[index].base), ser(m[index].entry));
      end := WriteBytes(U64(m[index].base), buf, end);
      end := WriteBytes(ser(m[index].entry), buf, end);
    }
    FinishMap(buf[..], s0, startAddress, keys, values);
    OffsetOfLast(keys, values);
  }

  // The size that Serialize allocates, kept in 32 bits.
  method SizeToAlloc<E>(m: seq<Stored<E>>, ser: E -> seq<Byte>) returns (size: nat)
    ensures size == In32Bits(|RangeMapBytes(m, ser)|)
    ensures size == |RangeMapBytes(m, ser)| <==> |RangeMapBytes(m, ser)| < U32_LIMIT
  {
    hide RangeMapBytes;
    size := SizeOf(m, ser);
    size := In32Bits(size);
  }

  // Allocates the bytes and fills them.
  method Serialize<E>(m: seq<Stored<E>>, ser: E -> seq<Byte>) returns (data: array<Byte>)
    requires |RangeMapBytes(m, ser)| < U32_LIMIT
    ensures fresh(data) && data[..] == RangeMapBytes(m, ser)
  {
    var sizeToAlloc := SizeToAlloc(m, ser);
    data := new Byte[sizeToAlloc];
    var _ := Write(m, ser, data, 0);
  }
}
