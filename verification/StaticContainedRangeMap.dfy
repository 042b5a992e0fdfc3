// StaticContainedRangeMap: ContainedRangeMap's lookup, answered from the bytes
// ContainedRangeMapSerializer wrote.

module StaticContainedRangeMaps {
  import opened Options
  import opened Addresses
  import opened SortedKeys
  import opened Forests
  import opened Bytes
  import opened MapLayout
  import opened StaticMaps
  import opened ContainedRangeMapSerializers

  // The bytes at this place are those of a node, and offsets inside it fit in 32 bits.
  ghost predicate Stands<E>(memory: seq<Byte>, at: nat, base: Address, entry: E, f: seq<Tree<E>>, ser: E -> seq<Byte>) {
    && Holds(memory, at, NodeBytes(base, entry, f, ser))
    && |NodeBytes(base, entry, f, ser)| < U32_LIMIT
  }

  // The parts of a node.
  lemma NodeParts<E>(memory: seq<Byte>, at: nat, base: Address, entry: E, f: seq<Tree<E>>, ser: E -> seq<Byte>)
    requires Stands(memory, at, base, entry, f, ser)
    ensures at + 12 + |ser(entry)| <= |memory|
    ensures ReadU64(memory, at) == base && ReadU32(memory, at + 8) == |ser(entry)|
    ensures Holds(memory, at + 12, ser(entry))
    ensures Fits(Highs(f), ChildValues(f, ser))
    ensures Holds(memory, at + 12 + |ser(entry)|, MapBytes(Highs(f), ChildValues(f, ser)))
  {
    hide Holds;
    hide MapBytes;
    var b, size, bytes := U64(base), U32(|ser(entry)|), ser(entry);
    var map_ := MapBytes(Highs(f), ChildValues(f, ser));
    MapSize(Highs(f), ChildValues(f, ser));
    HoldsConcat(memory, at, Header(base, entry, ser), map_);
    HoldsConcat(memory, at, b, size + bytes);
    HoldsConcat(memory, at + 8, size, bytes);
    HoldsFits(memory, at + 12, bytes);
    ReadsBackU64(memory, at, base);
    ReadsBackU32(memory, at + 8, |bytes|);
  }

  // The node of child k stands where the map's offset says.
  lemma ChildStands<E>(memory: seq<Byte>, at: nat, f: seq<Tree<E>>, ser: E -> seq<Byte>, k: nat)
    requires Fits(Highs(f), ChildValues(f, ser)) && k < |f|
    requires Holds(memory, at, MapBytes(Highs(f), ChildValues(f, ser)))
    ensures var s := StaticMap(memory, at);
            && s.Readable() && s.NumNodes() == |f|
            && Stands(memory, at + s.OffsetAt(k), f[k].base, f[k].entry, f[k].children, ser)
  {
    hide Holds;
    hide Fits;
    hide ReadU32;
    hide ReadU64;
    hide OffsetOf;
    hide MapBytes;
    hide ChildValues;
    hide NodeBytes;
    var values := ChildValues(f, ser);
    ValueFits(Highs(f), values, k);
    StaticMap(memory, at).ReadsMap(Highs(f), values);
    ChildValue(f, ser, k);
  }

  datatype StaticContainedRangeMap = StaticContainedRangeMap(base_: Address, entry_ptr_: EntryPointer, map_: StaticMap)

  // The constructor: decodes the node at base.
  function Open(memory: seq<Byte>, base: nat): StaticContainedRangeMap
    requires base + 12 <= |memory|
  {
    var entrySize := ReadU32(memory, base + 8);
    StaticContainedRangeMap(
      ReadU64(memory, base),
      if entrySize == 0 then None else Some(base + 12),
      StaticMap(memory, base + 12 + entrySize))
  }

  // The same answer as the map these bytes were written from, at every address and any depth.
  method RetrieveRange<E>(s: StaticContainedRangeMap, address: Address,
                          ghost f: seq<Tree<E>>, ghost ser: E -> seq<Byte>)
    returns (r: Option<EntryPointer>)
    requires WellFormed(f) && Fits(Highs(f), ChildValues(f, ser))
    requires Holds(s.map_.memory, s.map_.rawData, MapBytes(Highs(f), ChildValues(f, ser)))
    ensures match Retrieve(f, address)
            case None => r.None?
            case Some(e) => r.Some? && Points(s.map_.memory, r.value, e, ser)
    decreases f
  {
    hide Holds;
    hide MapBytes;
    hide ChildValues;
    hide NodeBytes;
    hide OffsetOf;
    hide Fits;
    hide ReadU32;
    hide ReadU64;
    hide SortedKeys.LowerBound;
    s.map_.ReadsMap(Highs(f), ChildValues(f, ser));
    HighsAscend(f);
    var index := s.map_.LowerBound(address);
    if index == s.map_.NumNodes() {
      return None;
    }
    var memoryChild := s.map_.rawData + s.map_.OffsetAt(index);
    ghost var child := f[index];
    ChildStands(s.map_.memory, s.map_.rawData, f, ser, index);
    NodeParts(s.map_.memory, memoryChild, child.base, child.entry, child.children, ser);
    var childMap := Open(s.map_.memory, memoryChild);
    if address < childMap.base_ {
      return None;
    }
    r := RetrieveRange(childMap, address, child.children, ser);
    if r.None? {
      r := Some(childMap.entry_ptr_);
    }
  }

  lemma HighsAscend<E>(f: seq<Tree<E>>)
    requires WellFormed(f)
    ensures StrictlyAscending(Highs(f))
  {
  }
}
