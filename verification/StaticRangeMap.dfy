// StaticRangeMap: RangeMap's lookups, answered from the bytes RangeMapSerializer wrote.

module StaticRangeMaps {
  import opened Options
  import opened Addresses
  import opened SortedKeys
  import opened StoredRanges
  import opened Bytes
  import opened MapLayout
  import opened StaticMaps
  import opened RangeMapSerializers

  // The pointer to the entry, and the range it belongs to.
  datatype StaticFound = StaticFound(entry: EntryPointer, base: Address, size: Address)

  // The bytes hold this map, and it is small enough for the format.
  ghost predicate Stands<E>(s: StaticMap, m: seq<Stored<E>>, ser: E -> seq<Byte>) {
    && Ordered(m) && Fits(Keys(m), Values(m, ser))
    && Holds(s.memory, s.rawData, RangeMapBytes(m, ser))
  }

  // Found together, same range, and the entry's own bytes, if it has any, at the pointer, which is
  // never null.
  ghost predicate SameRange<E>(memory: seq<Byte>, r: Option<StaticFound>, q: Option<Found<E>>, ser: E -> seq<Byte>) {
    match q
    case None => r.None?
    case Some(f) =>
      && r.Some? && r.value.base == f.base && r.value.size == f.size
      && r.value.entry.Some? && Holds(memory, r.value.entry.value, ser(f.entry))
  }

  // Same answer, delta aside: also the same entry, null when the map's own entry is.
  ghost predicate SameAnswer<E>(memory: seq<Byte>, r: Option<StaticFound>, q: Option<Found<E>>, ser: E -> seq<Byte>) {
    match q
    case None => r.None?
    case Some(f) =>
      r.Some? && r.value.base == f.base && r.value.size == f.size && Points(memory, r.value.entry, f.entry, ser)
  }

  // The entry found, if any, is written as at least one byte.
  predicate FindsBytes<E>(q: Option<Found<E>>, ser: E -> seq<Byte>) {
    q.Some? ==> ser(q.value.entry) != []
  }

  lemma SameWhereBytes<E>(memory: seq<Byte>, r: Option<StaticFound>, q: Option<Found<E>>, ser: E -> seq<Byte>)
    requires SameRange(memory, r, q, ser)
    ensures SameAnswer(memory, r, q, ser) <==> FindsBytes(q, ser)
  {
  }

  lemma KeysAscend<E>(m: seq<Stored<E>>)
    requires Ordered(m)
    ensures StrictlyAscending(Keys(m))
  {
  }

  // Node k of the serialized map is range k of the map.
  lemma NodeOfRange<E>(s: StaticMap, m: seq<Stored<E>>, ser: E -> seq<Byte>, k: nat)
    requires Stands(s, m, ser) && k < |m|
    ensures s.Readable() && s.NumNodes() == |m| && s.Keys() == Keys(m) && s.KeyAt(k) == m[k].high
    ensures s.rawData + s.OffsetAt(k) + 8 <= |s.memory|
    ensures ReadU64(s.memory, s.rawData + s.OffsetAt(k)) == m[k].base
    ensures Holds(s.memory, s.rawData + s.OffsetAt(k) + 8, ser(m[k].entry))
  {
    hide Holds;
    hide Fits;
    hide Ordered;
    hide OffsetOf;
    hide Decode;
    s.ReadsMap(Keys(m), Values(m, ser));
    assert s.Keys()[k] == s.KeyAt(k);
    var at := s.rawData + s.OffsetAt(k);
    assert Values(m, ser)[k] == U64(m[k].base) + ser(m[k].entry);
    HoldsConcat(s.memory, at, U64(m[k].base), ser(m[k].entry));
    HoldsFits(s.memory, at, U64(m[k].base));
    ReadsBackU64(s.memory, at, m[k].base);
  }

  // Every entry found is smaller than 32 bits can count.
  lemma EntryFits<E>(s: StaticMap, m: seq<Stored<E>>, ser: E -> seq<Byte>, a: Address)
    requires Stands(s, m, ser) && Lookup(m, a).Some?
    ensures |ser(Lookup(m, a).value.entry)| < U32_LIMIT
  {
    hide Fits;
    hide Holds;
    hide Ordered;
    var k := Find(m, a);
    ValueFits(Keys(m), Values(m, ser), k);
    assert Values(m, ser)[k] == U64(m[k].base) + ser(m[k].entry);
  }

  // Every map written from a RangeMap passes the validator: no value is empty.
  lemma WrittenRangeMapValidates<E>(s: StaticMap, m: seq<Stored<E>>, ser: E -> seq<Byte>)
    requires Stands(s, m, ser)
    ensures s.Readable() && s.WellLaid()
  {
    KeysAscend(m);
    WrittenMapValidates(s.memory, s.rawData, Keys(m), Values(m, ser));
    forall i | 0 <= i < |m| ensures Values(m, ser)[i] != [] {
    }
  }

  datatype StaticRangeMap = StaticRangeMap(map_: StaticMap) {

    // What the map says of node k.
    function At(k: nat): StaticFound
      requires map_.Readable() && k < map_.NumNodes()
      requires map_.rawData + map_.OffsetAt(k) + 8 <= |map_.memory|
    {
      var range := map_.rawData + map_.OffsetAt(k);
      var base := ReadU64(map_.memory, range);
      StaticFound(Some(range + 8), base, Wrap(map_.KeyAt(k) - base + 1))
    }

    // What a linear scan of the nodes finds at an address.
    ghost function Answer<E>(address: Address, m: seq<Stored<E>>, ser: E -> seq<Byte>): (r: Option<StaticFound>)
      requires Stands(map_, m, ser)
      ensures SameRange(map_.memory, r, Lookup(m, address), ser)
    {
      hide Stands;
      hide Holds;
      Opens(m, ser);
      var k := SortedKeys.LowerBound(map_.Keys(), address);
      if k == |m| then None
      else
        NodeOfRange(map_, m, ser, k);
        if address < ReadU64(map_.memory, map_.rawData + map_.OffsetAt(k)) then None else Some(At(k))
    }

    // The answers agree with the map's at every address exactly when no entry of the map is written
    // as no bytes.
    lemma AnswersAgreeIffNoNull<E>(m: seq<Stored<E>>, ser: E -> seq<Byte>)
      requires Stands(map_, m, ser)
      ensures (forall a: Address :: SameAnswer(map_.memory, Answer(a, m, ser), Lookup(m, a), ser)) <==>
              (forall i :: 0 <= i < |m| ==> ser(m[i].entry) != [])
    {
      assert Ordered(m);
      hide Stands;
      forall a: Address
        ensures SameAnswer(map_.memory, Answer(a, m, ser), Lookup(m, a), ser) <==> FindsBytes(Lookup(m, a), ser)
      {
        SameWhereBytes(map_.memory, Answer(a, m, ser), Lookup(m, a), ser);
      }
      hide SameAnswer;
      if forall a: Address :: SameAnswer(map_.memory, Answer(a, m, ser), Lookup(m, a), ser) {
        forall i | 0 <= i < |m| ensures ser(m[i].entry) != [] {
          LookupAtHigh(m, i);
          assert FindsBytes(Lookup(m, m[i].high), ser);
        }
      }
    }

    method RetrieveRange<E>(address: Address, ghost m: seq<Stored<E>>, ghost ser: E -> seq<Byte>)
      returns (r: Option<StaticFound>)
      requires Stands(map_, m, ser)
      ensures r == Answer(address, m, ser) && SameRange(map_.memory, r, Lookup(m, address), ser)
      ensures SameAnswer(map_.memory, r, Lookup(m, address), ser) <==> FindsBytes(Lookup(m, address), ser)
    {
      hide Stands;
      hide Holds;
      hide SameRange;
      hide SameAnswer;
      hide FindsBytes;
      hide Lookup;
      hide SortedKeys.LowerBound;
      SameWhereBytes(map_.memory, Answer(address, m, ser), Lookup(m, address), ser);
      Opens(m, ser);
      var index := map_.LowerBound(address);
      if index == map_.NumNodes() {
        return None;
      }
      NodeOfRange(map_, m, ser, index);
      var range := map_.rawData + map_.OffsetAt(index);
      if address < ReadU64(map_.memory, range) {
        return None;
      }
      return Some(At(index));
    }

    method RetrieveNearestRange<E>(address: Address, ghost m: seq<Stored<E>>, ghost ser: E -> seq<Byte>)
      returns (r: Option<StaticFound>)
      requires Stands(map_, m, ser)
      ensures SameRange(map_.memory, r, LookupNearest(m, address), ser)
      ensures SameAnswer(map_.memory, r, LookupNearest(m, address), ser) <==> FindsBytes(LookupNearest(m, address), ser)
    {
      hide Stands;
      hide Holds;
      hide Lookup;
      hide SortedKeys.LowerBound;
      hide SortedKeys.UpperBound;
      hide StaticMap.Keys;
      r := RetrieveRange(address, m, ser);
      if r.Some? {
        return;
      }
      Opens(m, ser);
      var index := map_.UpperBound(address);
      if index == 0 {
        return None;
      }
      index := index - 1;
      NodeOfRange(map_, m, ser, index);
      return Some(At(index));
    }

    method RetrieveRangeAtIndex<E>(index: nat, ghost m: seq<Stored<E>>, ghost ser: E -> seq<Byte>)
      returns (r: Option<StaticFound>)
      requires Stands(map_, m, ser)
      ensures
        var q := if index < |m| then Some(Report(m[index])) else None;
        SameRange(map_.memory, r, q, ser) && (SameAnswer(map_.memory, r, q, ser) <==> FindsBytes(q, ser))
    {
      hide Stands;
      hide Holds;
      Opens(m, ser);
      if index >= map_.NumNodes() {
        return None;
      }
      NodeOfRange(map_, m, ser, index);
      return Some(At(index));
    }

    lemma Opens<E>(m: seq<Stored<E>>, ser: E -> seq<Byte>)
      requires Stands(map_, m, ser)
      ensures map_.Readable() && map_.NumNodes() == |m| && map_.Keys() == Keys(m) && StrictlyAscending(map_.Keys())
    {
      map_.ReadsMap(Keys(m), Values(m, ser));
      KeysAscend(m);
    }
  }
}
