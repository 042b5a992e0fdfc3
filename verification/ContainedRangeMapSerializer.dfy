// Serializing a ContainedRangeMap: base, size of the entry, entry, and the map of children, each
// child serialized in the same way. ser gives the bytes an entry is written as.

module ContainedRangeMapSerializers {
  import opened Addresses
  import opened Forests
  import opened ContainedRangeMaps
  import opened Bytes
  import opened MapLayout
  import opened Writing

  function TreeBytes<E>(t: Tree<E>, ser: E -> seq<Byte>): seq<Byte>
    decreases t, 1
  {
    NodeBytes(t.base, t.entry, t.children, ser)
  }

  function ChildValues<E>(f: seq<Tree<E>>, ser: E -> seq<Byte>): (v: seq<seq<Byte>>)
    ensures |v| == |f|
    decreases f, 0
  {
    seq(|f|, i requires 0 <= i < |f| => TreeBytes(f[i], ser))
  }

  function Header<E>(base: Address, entry: E, ser: E -> seq<Byte>): seq<Byte> {
    U64(base) + (U32(|ser(entry)|) + ser(entry))
  }

  function NodeBytes<E>(base: Address, entry: E, f: seq<Tree<E>>, ser: E -> seq<Byte>): seq<Byte>
    decreases f, 1
  {
    Header(base, entry, ser) + MapBytes(Highs(f), ChildValues(f, ser))
  }

  lemma ChildValue<E>(f: seq<Tree<E>>, ser: E -> seq<Byte>, i: nat)
    requires i < |f|
    ensures ChildValues(f, ser)[i] == NodeBytes(f[i].base, f[i].entry, f[i].children, ser)
  {
  }

  // The header of a node, written at dest.
  method WriteHeader<E>(base: Address, entry: E, ser: E -> seq<Byte>, buf: array<Byte>, dest: nat) returns (end: nat)
    requires dest + |Header(base, entry, ser)| <= buf.Length
    modifies buf
    ensures end == dest + |Header(base, entry, ser)|
    ensures buf[..] == Overwrite(old(buf[..]), dest, Header(base, entry, ser))
  {
    OverwriteTwice(buf[..], dest, U64(base), U32(|ser(entry)|) + ser(entry));
    end := WriteBytes(U64(base), buf, dest);
    OverwriteTwice(buf[..], end, U32(|ser(entry)|), ser(entry));
    end := WriteBytes(U32(|ser(entry)|), buf, end);
    end := WriteBytes(ser(entry), buf, end);
  }

  method SizeOf<E(0)>(m: ContainedRangeMap<E>, ser: E -> seq<Byte>) returns (size: nat)
    requires m.Shape()
    ensures size == |NodeBytes(m.base_, m.entry_, m.Children, ser)|
    decreases m.Repr
  {
    hide Owned;
    hide Concat;
    size := 8 + |ser(m.entry_)| + 4;
    size := size + 4;
    size := size + |m.map_| * 4;
    ghost var values := ChildValues(m.Children, ser);
    MapSize(Highs(m.Children), values);
    OffsetOfFirst(values);
    for index := 0 to |m.map_|
      invariant size == 12 + |ser(m.entry_)| + OffsetOf(values, index) - 8 * (|m.map_| - index)
    {
      OwnedChild(m.map_, m.Children, m.Repr - {m}, index);
      OwnedInside(m.map_, m.Children, m.Repr - {m}, index);
      ChildValue(m.Children, ser, index);
      OffsetOfNext(values, index);
      size := size + 8;
      var below := SizeOf(m.map_[index].second, ser);
      size := size + below;
    }
    OffsetOfLast(Highs(m.Children), values);
  }

  // Fills exactly the bytes from dest up to the address returned.
  method Write<E(0)>(m: ContainedRangeMap<E>, ser: E -> seq<Byte>, buf: array<Byte>, dest: nat) returns (end: nat)
    requires m.Shape() && buf !in m.Repr
    requires dest + |NodeBytes(m.base_, m.entry_, m.Children, ser)| <= buf.Length
    modifies buf
    ensures end == dest + |NodeBytes(m.base_, m.entry_, m.Children, ser)|
    ensures buf[..] == Overwrite(old(buf[..]), dest, NodeBytes(m.base_, m.entry_, m.Children, ser))
    decreases m.Repr, 1
  {
    hide Owned;
    hide Footprint;
    hide Overwrite;
    hide MapBytes;
    hide Header;
    OverwriteTwice(buf[..], dest, Header(m.base_, m.entry_, ser),
                   MapBytes(Highs(m.Children), ChildValues(m.Children, ser)));
    end := WriteHeader(m.base_, m.entry_, ser, buf, dest);
    end := WriteChildren(m, ser, buf, end);
  }

  // The map of a node's children.
  method WriteChildren<E(0)>(m: ContainedRangeMap<E>, ser: E -> seq<Byte>, buf: array<Byte>, dest: nat)
    returns (end: nat)
    requires m.Shape() && buf !in m.Repr
    requires dest + |MapBytes(Highs(m.Children), ChildValues(m.Children, ser))| <= buf.Length
    modifies buf
    ensures end == dest + |MapBytes(Highs(m.Children), ChildValues(m.Children, ser))|
    ensures buf[..] == Overwrite(old(buf[..]), dest, MapBytes(Highs(m.Children), ChildValues(m.Children, ser)))
    decreases m.Repr, 0
  {
    hide Owned;
    hide Footprint;
    hide Overwrite;
    hide Concat;
    hide AllHeld;
    hide Areas;
    hide MapBytes;
    hide NodeBytes;
    ghost var s0, keys, values := buf[..], Highs(m.Children), ChildValues(m.Children, ser);
    MapSize(keys, values);
    StartMap(s0, dest, keys, values);
    var mapAddress := dest;
    end := WriteBytes(U32(|m.map_|), buf, dest);
    var offsets := end;
    end := end + 4 * |m.map_|;
    var keyAddress := end;
    end := end + 8 * |m.map_|;
    OffsetOfFirst(values);
    for index := 0 to |m.map_|
      invariant m.Shape()
      invariant keyAddress == mapAddress + 4 + 4 * |keys| + 8 * index
      invariant end == mapAddress + OffsetOf(values, index)
      invariant AllHeld(buf[..], Areas(s0, mapAddress, keys, values, index))
    {
      OwnedChild(m.map_, m.Children, m.Repr - {m}, index);
      OwnedInside(m.map_, m.Children, m.Repr - {m}, index);
      ChildValue(m.Children, ser, index);
      assert keys[index] == m.map_[index].first;
      WriteNode(buf[..], s0, mapAddress, keys, values, index);
      OffsetOfNext(values, index);
      var _ := WriteBytes(U32(end - mapAddress), buf, offsets + 4 * index);
      keyAddress := WriteBytes(U64(m.map_[index].first), buf, keyAddress);
      end := Write(m.map_[index].second, ser, buf, end);
    }
    FinishMap(buf[..], s0, mapAddress, keys, values);
    OffsetOfLast(keys, values);
  }

  // The size that Serialize allocates, kept in 32 bits.
  method SizeToAlloc<E(0)>(m: ContainedRangeMap<E>, ser: E -> seq<Byte>) returns (size: nat)
    requires m.Shape()
    ensures size == In32Bits(|NodeBytes(m.base_, m.entry_, m.Children, ser)|)
    ensures
      size == |NodeBytes(m.base_, m.entry_, m.Children, ser)| <==>
      |NodeBytes(m.base_, m.entry_, m.Children, ser)| < U32_LIMIT
  {
    hide NodeBytes;
    hide Owned;
    size := SizeOf(m, ser);
    size := In32Bits(size);
  }

  // Allocates the bytes and fills them.
  method Serialize<E(0)>(m: ContainedRangeMap<E>, ser: E -> seq<Byte>) returns (data: array<Byte>)
    requires m.Shape() && |NodeBytes(m.base_, m.entry_, m.Children, ser)| < U32_LIMIT
    ensures fresh(data) && data[..] == NodeBytes(m.base_, m.entry_, m.Children, ser)
  {
    hide NodeBytes;
    var sizeToAlloc := SizeToAlloc(m, ser);
    data := new Byte[sizeToAlloc];
    var _ := Write(m, ser, data, 0);
  }
}
