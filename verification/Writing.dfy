// Writing into a buffer: what one write changes, and how a map's areas fill up write by write.

module Writing {
  import opened Addresses
  import opened Bytes
  import opened MapLayout

  function Overwrite(s: seq<Byte>, at: nat, bs: seq<Byte>): (r: seq<Byte>)
    requires at + |bs| <= |s|
    ensures |r| == |s|
  {
    s[..at] + bs + s[at + |bs|..]
  }

  // SimpleSerializer::Write: stores the bytes at dest and returns the address after them.
  method WriteBytes(bs: seq<Byte>, buf: array<Byte>, dest: nat) returns (end: nat)
    requires dest + |bs| <= buf.Length
    modifies buf
    ensures end == dest + |bs|
    ensures buf[..] == Overwrite(old(buf[..]), dest, bs)
  {
    forall i | 0 <= i < |bs| {
      buf[dest + i] := bs[i];
    }
    end := dest + |bs|;
  }

  // ---------------------------------------------------------------- areas of a buffer

  datatype Area = Area(at: nat, bytes: seq<Byte>)

  ghost predicate AllHeld(s: seq<Byte>, areas: seq<Area>) {
    forall i :: 0 <= i < |areas| ==> Holds(s, areas[i].at, areas[i].bytes)
  }

  ghost predicate Clear(areas: seq<Area>, at: nat, n: nat) {
    forall i :: 0 <= i < |areas| ==> areas[i].at + |areas[i].bytes| <= at || at + n <= areas[i].at
  }

  lemma OverwriteKeeps(s: seq<Byte>, at: nat, bs: seq<Byte>, o: nat, cs: seq<Byte>)
    requires at + |bs| <= |s| && Holds(s, o, cs) && (o + |cs| <= at || at + |bs| <= o)
    ensures Holds(Overwrite(s, at, bs), o, cs)
  {
  }

  lemma OverwriteHolds(s: seq<Byte>, at: nat, bs: seq<Byte>)
    requires at + |bs| <= |s|
    ensures Holds(Overwrite(s, at, bs), at, bs)
  {
  }

  // A write just after area j lengthens it and leaves the other areas alone.
  lemma Extend(s: seq<Byte>, at: nat, bs: seq<Byte>, areas: seq<Area>, j: nat)
    requires AllHeld(s, areas) && j < |areas| && at == areas[j].at + |areas[j].bytes|
    requires at + |bs| <= |s| && Clear(areas, at, |bs|)
    ensures AllHeld(Overwrite(s, at, bs), areas[j := Area(areas[j].at, areas[j].bytes + bs)])
  {
    hide Overwrite;
    hide Holds;
    var r := Overwrite(s, at, bs);
    OverwriteHolds(s, at, bs);
    forall i | 0 <= i < |areas| ensures Holds(r, areas[i].at, areas[i].bytes) {
      OverwriteKeeps(s, at, bs, areas[i].at, areas[i].bytes);
    }
    HoldsConcat(r, areas[j].at, areas[j].bytes, bs);
  }

  // ---------------------------------------------------------------- writing a map

  // The buffer s0 with a map's count and its first i nodes written from start on.
  ghost function Areas(s0: seq<Byte>, start: nat, keys: seq<Address>, values: seq<seq<Byte>>, i: nat): seq<Area>
    requires |keys| == |values| && i <= |keys| && start + |MapBytes(keys, values)| <= |s0|
  {
    var n, end := |keys|, start + |MapBytes(keys, values)|;
    [Area(0, s0[..start]),
     Area(start, U32(n)),
     Area(start + 4, Concat(OffsetBlocks(values)[..i])),
     Area(start + 4 + 4 * n, Concat(KeyBlocks(keys)[..i])),
     Area(start + 4 + 12 * n, Concat(values[..i])),
     Area(end, s0[end..])]
  }

  lemma StartMap(s0: seq<Byte>, start: nat, keys: seq<Address>, values: seq<seq<Byte>>)
    requires |keys| == |values| && start + |MapBytes(keys, values)| <= |s0|
    ensures start + 4 + 12 * |keys| + |Concat(values)| == start + |MapBytes(keys, values)|
    ensures AllHeld(Overwrite(s0, start, U32(|keys|)), Areas(s0, start, keys, values, 0))
  {
    hide Overwrite;
    hide MapBytes;
    hide Encode;
    MapSize(keys, values);
    var r := Overwrite(s0, start, U32(|keys|));
    var end := start + |MapBytes(keys, values)|;
    OverwriteKeeps(s0, start, U32(|keys|), 0, s0[..start]);
    OverwriteKeeps(s0, start, U32(|keys|), end, s0[end..]);
    OverwriteHolds(s0, start, U32(|keys|));
  }

  // One turn of the writer's loop: offset, key and value of node i.
  lemma WriteNode(s: seq<Byte>, s0: seq<Byte>, start: nat, keys: seq<Address>, values: seq<seq<Byte>>, i: nat)
    requires |keys| == |values| && i < |keys| && start + |MapBytes(keys, values)| <= |s0| == |s|
    requires AllHeld(s, Areas(s0, start, keys, values, i))
    ensures start + OffsetOf(values, i) + |values[i]| <= |s|
    ensures start + 4 + 4 * |keys| + 8 * i + 8 <= |s|
    ensures
      var s1 := Overwrite(s, start + 4 + 4 * i, U32(OffsetOf(values, i)));
      var s2 := Overwrite(s1, start + 4 + 4 * |keys| + 8 * i, U64(keys[i]));
      var s3 := Overwrite(s2, start + OffsetOf(values, i), values[i]);
      AllHeld(s3, Areas(s0, start, keys, values, i + 1))
  {
    hide Overwrite;
    hide AllHeld;
    hide Concat;
    hide MapBytes;
    hide Encode;
    var n := |keys|;
    var a := Areas(s0, start, keys, values, i);
    var os, ks := OffsetBlocks(values), KeyBlocks(keys);
    MapSize(keys, values);
    ConcatFixed(os[..i], 4);
    ConcatFixed(ks[..i], 8);
    PrefixLength(values, i + 1);
    ConcatSnoc(os, i);
    ConcatSnoc(ks, i);
    ConcatSnoc(values, i);
    Extend(s, start + 4 + 4 * i, os[i], a, 2);
    var s1 := Overwrite(s, start + 4 + 4 * i, os[i]);
    var a1 := a[2 := Area(start + 4, Concat(os[..i]) + os[i])];
    Extend(s1, start + 4 + 4 * n + 8 * i, ks[i], a1, 3);
    var s2 := Overwrite(s1, start + 4 + 4 * n + 8 * i, ks[i]);
    var a2 := a1[3 := Area(start + 4 + 4 * n, Concat(ks[..i]) + ks[i])];
    Extend(s2, start + OffsetOf(values, i), values[i], a2, 4);
    assert a2[4 := Area(start + 4 + 12 * n, Concat(values[..i]) + values[i])] == Areas(s0, start, keys, values, i + 1);
  }

  lemma FinishMap(s: seq<Byte>, s0: seq<Byte>, start: nat, keys: seq<Address>, values: seq<seq<Byte>>)
    requires |keys| == |values| && start + |MapBytes(keys, values)| <= |s0| == |s|
    requires AllHeld(s, Areas(s0, start, keys, values, |keys|))
    ensures s == Overwrite(s0, start, MapBytes(keys, values))
  {
    hide Holds;
    hide Concat;
    hide Overwrite;
    var a, end := Areas(s0, start, keys, values, |keys|), start + |MapBytes(keys, values)|;
    assert Holds(s, a[0].at, a[0].bytes) && Holds(s, a[1].at, a[1].bytes) && Holds(s, a[2].at, a[2].bytes);
    assert Holds(s, a[3].at, a[3].bytes) && Holds(s, a[4].at, a[4].bytes) && Holds(s, a[5].at, a[5].bytes);
    assert OffsetBlocks(values)[..|keys|] == OffsetBlocks(values) && KeyBlocks(keys)[..|keys|] == KeyBlocks(keys);
    assert values[..|keys|] == values;
    MapAreas(s, start, keys, values);
    SameParts(s, s0, start, MapBytes(keys, values));
  }

  lemma SameParts(s: seq<Byte>, s0: seq<Byte>, start: nat, bs: seq<Byte>)
    requires start + |bs| <= |s0| == |s|
    requires Holds(s, 0, s0[..start]) && Holds(s, start, bs) && Holds(s, start + |bs|, s0[start + |bs|..])
    ensures s == Overwrite(s0, start, bs)
  {
  }

  lemma OverwriteTwice(s: seq<Byte>, at: nat, a: seq<Byte>, b: seq<Byte>)
    requires at + |a| + |b| <= |s|
    ensures Overwrite(Overwrite(s, at, a), at + |a|, b) == Overwrite(s, at, a + b)
  {
  }
}
