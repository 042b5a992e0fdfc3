// From a map to its bytes and back to its answers: write, open, look up.

module SerializedLookups {
  import opened Options
  import opened Addresses
  import opened Forests
  import opened StoredRanges
  import ContainedRangeMaps
  import opened RangeMaps
  import opened Bytes
  import opened MapLayout
  import opened StaticMaps
  import opened StaticRangeMaps
  import StaticContainedRangeMaps
  import RangeMapSerializers
  import ContainedRangeMapSerializers
  import opened SymbolTypes

  // A tree, serialized and opened again, gives the tree's own answer.
  method AskTree<E(0)>(m: ContainedRangeMaps.ContainedRangeMap<E>, ser: E -> seq<Byte>, address: Address)
    returns (data: array<Byte>, r: Option<EntryPointer>)
    requires m.Valid()
    requires |ContainedRangeMapSerializers.NodeBytes(m.base_, m.entry_, m.Children, ser)| < U32_LIMIT
    ensures match m.RetrieveRange(address)
            case None => r.None?
            case Some(e) => r.Some? && Points(data[..], r.value, e, ser)
  {
    hide Holds;
    hide WellFormed;
    hide Fits;
    data := ContainedRangeMapSerializers.Serialize(m, ser);
    HoldsAll(data[..]);
    StaticContainedRangeMaps.NodeParts(data[..], 0, m.base_, m.entry_, m.Children, ser);
    var s := StaticContainedRangeMaps.Open(data[..], 0);
    r := StaticContainedRangeMaps.RetrieveRange(s, address, m.Children, ser);
  }

  lemma HoldsAll(bytes: seq<Byte>)
    ensures Holds(bytes, 0, bytes)
  {
  }

  // Disjoint ranges, serialized and opened again, give the same range and, unless the entry is null,
  // the same entry.
  method AskRanges<E>(m: RangeMap<E>, ser: E -> seq<Byte>, address: Address)
    returns (data: array<Byte>, r: Option<StaticFound>)
    requires m.Valid() && Fits(Keys(m.map_), RangeMapSerializers.Values(m.map_, ser))
    ensures SameRange(data[..], r, m.RetrieveRange(address), ser)
    ensures SameAnswer(data[..], r, m.RetrieveRange(address), ser) <==> FindsBytes(m.RetrieveRange(address), ser)
  {
    data := RangeMapSerializers.Serialize(m.map_, ser);
    HoldsAll(data[..]);
    r := StaticRangeMap(StaticMap(data[..], 0)).RetrieveRange(address, m.map_, ser);
  }

  // ---------------------------------------------------------------- from an address to its line

  type LineFields = (Address, Address, int, int)

  function Fields(l: Line): LineFields {
    (l.address, l.size, l.source_file_id, l.line)
  }

  // The line of an address in a map of functions: the function that covers it, then the line there.
  function LineAt(m: seq<Stored<Option<Function>>>, address: Address): Option<Option<Line>>
  {
    match Lookup(m, address)
    case None => None
    case Some(f) =>
      if f.entry.None? then None
      else
        match Lookup(f.entry.value.lines, address)
        case None => None
        case Some(l) => Some(l.entry)
  }

  // The function at the address, if there is one, is not null and can be read back.
  ghost predicate FunctionIsGood(m: seq<Stored<Option<Function>>>, address: Address) {
    match Lookup(m, address)
    case None => true
    case Some(f) => f.entry.Some? && 0 !in f.entry.value.name && Ordered(f.entry.value.lines)
  }

  // Two lookups in the same bytes, the second in the map inside the function the first one found.
  method FindLine(functions: StaticRangeMap, address: Address, ghost m: seq<Stored<Option<Function>>>)
    returns (r: Option<LineFields>)
    requires Stands(functions.map_, m, FunctionPtrBytes) && FunctionIsGood(m, address)
    requires LineAt(m, address) != Some(None)
    ensures match LineAt(m, address)
            case None => r.None?
            case Some(l) => r == Some(Fields(l.value))
  {
    hide Stands;
    hide Holds;
    hide Ordered;
    hide FunctionBytes;
    hide Lookup;
    var memory := functions.map_.memory;
    var f := functions.RetrieveRange(address, m, FunctionPtrBytes);
    if f.None? {
      return None;
    }
    EntryFits(functions.map_, m, FunctionPtrBytes, address);
    ghost var function_ := Lookup(m, address).value.entry.value;
    var name, base, size, parameterSize, lines := CopyFunction(memory, f.value.entry.value, function_);
    var l := lines.RetrieveRange(address, function_.lines, LinePtrBytes);
    if l.None? {
      return None;
    }
    LineReadsBack(memory, l.value.entry.value, LineAt(m, address).value.value);
    return Some(ReadLine(memory, l.value.entry.value));
  }
}
