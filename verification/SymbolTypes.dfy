// The symbols a module serializes, and the readers of their layouts: Line, and Function,
// which holds a serialized map of its lines.

module SymbolTypes {
  import opened Options
  import opened Addresses
  import opened SortedKeys
  import opened StoredRanges
  import opened Bytes
  import opened MapLayout
  import opened Writing
  import RangeMapSerializers
  import opened StaticMaps
  import opened StaticRangeMaps

  datatype Line = Line(address: Address, size: Address, source_file_id: Int32, line: Int32)

  // lines maps to linked_ptr<Line>; None is a null pointer. is_multiple is not written.
  datatype Function = Function(name: seq<Byte>, address: Address, size: Address, parameter_size: Int32,
                               is_multiple: bool, lines: seq<Stored<Option<Line>>>)

  // ---------------------------------------------------------------- layouts

  function LineBytes(l: Line): seq<Byte> {
    U64(l.address) + (U64(l.size) + (I32(l.source_file_id) + I32(l.line)))
  }

  function LinePtrBytes(l: Option<Line>): seq<Byte> {
    match l
    case None => []
    case Some(line) => LineBytes(line)
  }

  function StringBytes(s: seq<Byte>): seq<Byte> {
    s + [0]
  }

  function FunctionBytes(f: Function): seq<Byte> {
    StringBytes(f.name) + FieldBytes(f)
  }

  // What follows the name.
  function FieldBytes(f: Function): seq<Byte> {
    var lines := RangeMapSerializers.RangeMapBytes(f.lines, LinePtrBytes);
    U64(f.address) + (U64(f.size) + (I32(f.parameter_size) + lines))
  }

  function FunctionPtrBytes(f: Option<Function>): seq<Byte> {
    match f
    case None => []
    case Some(function_) => FunctionBytes(function_)
  }

  // ---------------------------------------------------------------- sizes

  method SizeOfLine(l: Line) returns (size: nat)
    ensures size == |LineBytes(l)|
  {
    size := 8 + 8 + 4 + 4;
  }

  // A null pointer takes no room.
  method SizeOfLinePtr(l: Option<Line>) returns (size: nat)
    ensures size == |LinePtrBytes(l)|
  {
    if l.None? {
      return 0;
    }
    size := SizeOfLine(l.value);
  }

  method SizeOfString(s: seq<Byte>) returns (size: nat)
    ensures size == |StringBytes(s)|
  {
    size := |s| + 1;
  }

  // The sum is kept in 32 bits, so it is the size of what is written exactly when that fits.
  method SizeOfFunction(f: Function) returns (size: nat)
    ensures size == In32Bits(|FunctionBytes(f)|)
    ensures size == |FunctionBytes(f)| <==> |FunctionBytes(f)| < U32_LIMIT
  {
    hide FunctionBytes;
    hide StringBytes;
    hide RangeMapSerializers.RangeMapBytes;
    hide In32Bits;
    FunctionSize(f);
    var name := SizeOfString(f.name);
    size := In32Bits(name);
    SumIn32Bits(name, 8);
    size := In32Bits(size + 8);
    SumIn32Bits(name + 8, 8);
    size := In32Bits(size + 8);
    SumIn32Bits(name + 16, 4);
    size := In32Bits(size + 4);
    var lines := RangeMapSerializers.SizeOf(f.lines, LinePtrBytes);
    SumIn32Bits(name + 20, lines);
    size := In32Bits(size + lines);
  }

  lemma SumIn32Bits(a: nat, b: nat)
    ensures In32Bits(In32Bits(a) + b) == In32Bits(a + b)
  {
  }

  lemma FunctionSize(f: Function)
    ensures |FunctionBytes(f)| ==
            |StringBytes(f.name)| + 20 + |RangeMapSerializers.RangeMapBytes(f.lines, LinePtrBytes)|
  {
    hide RangeMapSerializers.RangeMapBytes;
  }

  // A function without lines whose name takes the size past 32 bits: the size kept is 0.
  lemma LongNameHasNoSize(f: Function)
    requires f.lines == [] && |f.name| == U32_LIMIT - 25
    ensures |FunctionBytes(f)| == U32_LIMIT && In32Bits(|FunctionBytes(f)|) == 0
  {
    FunctionSize(f);
    MapSize(Keys(f.lines), RangeMapSerializers.Values(f.lines, LinePtrBytes));
    assert RangeMapSerializers.Values(f.lines, LinePtrBytes) == [];
    hide FunctionBytes;
    hide MapBytes;
  }

  // ---------------------------------------------------------------- writers

  method WriteLine(l: Line, buf: array<Byte>, dest: nat) returns (end: nat)
    requires dest + |LineBytes(l)| <= buf.Length
    modifies buf
    ensures end == dest + |LineBytes(l)| && buf[..] == Overwrite(old(buf[..]), dest, LineBytes(l))
  {
    OverwriteTwice(buf[..], dest, U64(l.address), U64(l.size) + (I32(l.source_file_id) + I32(l.line)));
    end := WriteBytes(U64(l.address), buf, dest);
    OverwriteTwice(buf[..], end, U64(l.size), I32(l.source_file_id) + I32(l.line));
    end := WriteBytes(U64(l.size), buf, end);
    OverwriteTwice(buf[..], end, I32(l.source_file_id), I32(l.line));
    end := WriteBytes(I32(l.source_file_id), buf, end);
    end := WriteBytes(I32(l.line), buf, end);
  }

  method WriteLinePtr(l: Option<Line>, buf: array<Byte>, dest: nat) returns (end: nat)
    requires dest + |LinePtrBytes(l)| <= buf.Length
    modifies buf
    ensures end == dest + |LinePtrBytes(l)| && buf[..] == Overwrite(old(buf[..]), dest, LinePtrBytes(l))
  {
    end := dest;
    if l.Some? {
      end := WriteLine(l.value, buf, end);
    }
  }

  // What strcpy copies of a string: everything before its first zero byte.
  function UpToZero(s: seq<Byte>): (r: seq<Byte>)
    ensures 0 !in r && |r| <= |s| && r == s[..|r|]
    ensures |r| < |s| ==> s[|r|] == 0
    ensures r == s <==> 0 !in s
  {
    if s == [] || s[0] == 0 then [] else [s[0]] + UpToZero(s[1..])
  }

  // strcpy, and the address after the whole string: after a zero byte inside the string, the rest of
  // the window is left as it was.
  method WriteString(s: seq<Byte>, buf: array<Byte>, dest: nat) returns (end: nat)
    requires dest + |StringBytes(s)| <= buf.Length
    modifies buf
    ensures end == dest + |StringBytes(s)|
    ensures buf[..] == Overwrite(old(buf[..]), dest, StringBytes(UpToZero(s)))
  {
    hide Overwrite;
    ghost var before := buf[..];
    OverwriteNothing(before, dest);
    var i := 0;
    while i < |s| && s[i] != 0
      invariant i <= |UpToZero(s)|
      invariant buf[..] == Overwrite(before, dest, s[..i])
    {
      OverwriteTwice(before, dest, s[..i], [s[i]]);
      var _ := WriteBytes([s[i]], buf, dest + i);
      assert s[..i + 1] == s[..i] + [s[i]];
      i := i + 1;
    }
    OverwriteTwice(before, dest, s[..i], [0]);
    var _ := WriteBytes([0], buf, dest + i);
    end := dest + |s| + 1;
  }

  lemma OverwriteNothing(s: seq<Byte>, at: nat)
    requires at <= |s|
    ensures Overwrite(s, at, []) == s
  {
  }

  // Every field of a function in its place. Of a name with a zero byte inside, strcpy writes the part
  // before it.
  method WriteFunction(f: Function, buf: array<Byte>, dest: nat) returns (end: nat)
    requires dest + |FunctionBytes(f)| <= buf.Length
    modifies buf
    ensures end == dest + |FunctionBytes(f)|
    ensures
      var named := Overwrite(old(buf[..]), dest, StringBytes(UpToZero(f.name)));
      buf[..] == Overwrite(named, dest + |StringBytes(f.name)|, FieldBytes(f))
    ensures 0 !in f.name ==> buf[..] == Overwrite(old(buf[..]), dest, FunctionBytes(f))
  {
    hide Overwrite;
    hide FieldBytes;
    if 0 !in f.name {
      OverwriteTwice(buf[..], dest, StringBytes(f.name), FieldBytes(f));
    }
    end := WriteString(f.name, buf, dest);
    end := WriteFields(f, buf, end);
  }

  method WriteFields(f: Function, buf: array<Byte>, dest: nat) returns (end: nat)
    requires dest + |FieldBytes(f)| <= buf.Length
    modifies buf
    ensures end == dest + |FieldBytes(f)| && buf[..] == Overwrite(old(buf[..]), dest, FieldBytes(f))
  {
    hide Overwrite;
    hide RangeMapSerializers.RangeMapBytes;
    var lines := RangeMapSerializers.RangeMapBytes(f.lines, LinePtrBytes);
    OverwriteTwice(buf[..], dest, U64(f.address), U64(f.size) + (I32(f.parameter_size) + lines));
    end := WriteBytes(U64(f.address), buf, dest);
    OverwriteTwice(buf[..], end, U64(f.size), I32(f.parameter_size) + lines);
    end := WriteBytes(U64(f.size), buf, end);
    OverwriteTwice(buf[..], end, I32(f.parameter_size), lines);
    end := WriteBytes(I32(f.parameter_size), buf, end);
    end := RangeMapSerializers.Write(f.lines, LinePtrBytes, buf, end);
  }

  // ---------------------------------------------------------------- readers

  function ReadLine(memory: seq<Byte>, raw: nat): (l: (Address, Address, int, int))
    requires raw + 24 <= |memory|
  {
    (ReadU64(memory, raw), ReadU64(memory, raw + 8), ReadI32(memory, raw + 16), ReadI32(memory, raw + 20))
  }

  lemma LineReadsBack(memory: seq<Byte>, raw: nat, l: Line)
    requires Holds(memory, raw, LineBytes(l))
    ensures raw + 24 <= |memory| && ReadLine(memory, raw) == (l.address, l.size, l.source_file_id, l.line)
    ensures ReadU64(memory, raw) == l.address && ReadU64(memory, raw + 8) == l.size
    ensures ReadI32(memory, raw + 16) == l.source_file_id && ReadI32(memory, raw + 20) == l.line
  {
    hide Holds;
    HoldsFits(memory, raw, LineBytes(l));
    HoldsConcat(memory, raw, U64(l.address), U64(l.size) + (I32(l.source_file_id) + I32(l.line)));
    HoldsConcat(memory, raw + 8, U64(l.size), I32(l.source_file_id) + I32(l.line));
    HoldsConcat(memory, raw + 16, I32(l.source_file_id), I32(l.line));
    ReadsBackU64(memory, raw, l.address);
    ReadsBackU64(memory, raw + 8, l.size);
    ReadsBackI32(memory, raw + 16, l.source_file_id);
    ReadsBackI32(memory, raw + 20, l.line);
  }

  // Looking up an address in the lines gives the line stored there: its range always, and its fields
  // when it is not null.
  lemma LinesAnswer(lines: StaticRangeMap, m: seq<Stored<Option<Line>>>, a: Address)
    requires Stands(lines.map_, m, LinePtrBytes)
    ensures
      var r := lines.Answer(a, m, LinePtrBytes);
      match Lookup(m, a)
      case None => r.None?
      case Some(found) =>
        && r.Some? && r.value.base == found.base && r.value.size == found.size && r.value.entry.Some?
        && match found.entry
           case None => true
           case Some(l) =>
             && r.value.entry.value + 24 <= |lines.map_.memory|
             && ReadLine(lines.map_.memory, r.value.entry.value) == (l.address, l.size, l.source_file_id, l.line)
  {
    var r := lines.Answer(a, m, LinePtrBytes);
    hide Stands;
    hide Holds;
    hide Lookup;
    match Lookup(m, a) {
      case None =>
      case Some(found) =>
        match found.entry {
          case None =>
          case Some(l) => LineReadsBack(lines.map_.memory, r.value.entry.value, l);
        }
    }
  }

  // The lines answer as they were written, at every address, exactly when none of them is null.
  lemma LinesAgreeIffNoNull(lines: StaticRangeMap, m: seq<Stored<Option<Line>>>)
    requires Stands(lines.map_, m, LinePtrBytes)
    ensures
      (forall a: Address ::
         SameAnswer(lines.map_.memory, lines.Answer(a, m, LinePtrBytes), Lookup(m, a), LinePtrBytes)) <==>
      (forall i :: 0 <= i < |m| ==> m[i].entry.Some?)
  {
    lines.AnswersAgreeIffNoNull(m, LinePtrBytes);
    forall i | 0 <= i < |m| ensures LinePtrBytes(m[i].entry) != [] <==> m[i].entry.Some? {
    }
  }

  // Two ranges, the first with a null line.
  function NullAndLine(l: Line): seq<Stored<Option<Line>>> {
    [Stored(0x1f, 0x10, 0, None), Stored(0x2f, 0x20, 0, Some(l))]
  }

  // At 0x10 the map says null; its serialized form gives the address of the next value, so that the
  // line read there starts at 0x20, the base of the other range.
  lemma NullLineIsMisread(lines: StaticRangeMap, l: Line)
    requires lines.map_ == StaticMap(RangeMapSerializers.RangeMapBytes(NullAndLine(l), LinePtrBytes), 0)
    ensures Stands(lines.map_, NullAndLine(l), LinePtrBytes)
    ensures Lookup(NullAndLine(l), 0x10) == Some(Report(NullAndLine(l)[0])) && Report(NullAndLine(l)[0]).entry.None?
    ensures
      var r := lines.Answer(0x10, NullAndLine(l), LinePtrBytes);
      && r.Some? && r.value.entry.Some? && r.value.entry.value + 24 <= |lines.map_.memory|
      && ReadLine(lines.map_.memory, r.value.entry.value).0 == 0x20
  {
    NullAndLineStands(lines.map_, l);
    var m, s := NullAndLine(l), lines.map_;
    var values := RangeMapSerializers.Values(m, LinePtrBytes);
    s.ReadsMap(Keys(m), values);
    NodeOfRange(s, m, LinePtrBytes, 0);
    NodeOfRange(s, m, LinePtrBytes, 1);
    ConcatSnoc(values, 0);
    hide Stands;
    hide Holds;
    LowerBoundIs(Keys(m), 0x10, 0);
  }

  lemma NullAndLineStands(s: StaticMap, l: Line)
    requires s == StaticMap(RangeMapSerializers.RangeMapBytes(NullAndLine(l), LinePtrBytes), 0)
    ensures Stands(s, NullAndLine(l), LinePtrBytes)
  {
    hide MapBytes;
    var m := NullAndLine(l);
    var values := RangeMapSerializers.Values(m, LinePtrBytes);
    MapSize(Keys(m), values);
    ConcatSnoc(values, 0);
    ConcatSnoc(values, 1);
    assert values[..2] == values && values[..0] == [];
    hide Concat;
    hide Encode;
    assert m[0].entry == None && m[1].entry == Some(l);
    assert LinePtrBytes(m[0].entry) == [] && LinePtrBytes(m[1].entry) == LineBytes(l);
    assert values[0] == U64(m[0].base) + LinePtrBytes(m[0].entry);
    assert values[1] == U64(m[1].base) + LinePtrBytes(m[1].entry);
  }

  // strlen: scans to the first zero byte.
  method StrLen(memory: seq<Byte>, raw: nat, ghost name: seq<Byte>) returns (n: nat)
    requires Holds(memory, raw, StringBytes(name))
    ensures n == |UpToZero(name)|
  {
    n := 0;
    ghost var window := memory[raw..raw + |name| + 1];
    ghost var end := |UpToZero(name)|;
    assert forall i :: 0 <= i < end ==> UpToZero(name)[i] in UpToZero(name) && window[i] == UpToZero(name)[i];
    assert window[end] == 0;
    while memory[raw + n] != 0
      invariant n <= end
      decreases end - n
    {
      assert window[n] != 0;
      n := n + 1;
    }
    assert window[n] == 0;
  }

  // CopyFrom: every written field comes back, and lines stands on the bytes of the lines written.
  method CopyFunction(memory: seq<Byte>, raw: nat, ghost f: Function)
    returns (name: seq<Byte>, address: Address, size: Address, parameterSize: int, lines: StaticRangeMap)
    requires 0 !in f.name && Ordered(f.lines)
    requires Holds(memory, raw, FunctionBytes(f)) && |FunctionBytes(f)| < U32_LIMIT
    ensures name == f.name && address == f.address && size == f.size && parameterSize == f.parameter_size
    ensures lines.map_.memory == memory && Stands(lines.map_, f.lines, LinePtrBytes)
  {
    hide Holds;
    hide FunctionBytes;
    hide Stands;
    hide ReadU64;
    hide ReadI32;
    hide Ordered;
    FunctionParts(memory, raw, f);
    var nameSize := StrLen(memory, raw, f.name);
    nameSize := nameSize + 1;
    name := memory[raw..raw + nameSize - 1];
    address := ReadU64(memory, raw + nameSize);
    size := ReadU64(memory, raw + nameSize + 8);
    parameterSize := ReadI32(memory, raw + nameSize + 16);
    lines := StaticRangeMap(StaticMap(memory, raw + nameSize + 20));
  }

  // The name, its terminator, then the fields and the map of lines at fixed distances from it.
  lemma FunctionParts(memory: seq<Byte>, raw: nat, f: Function)
    requires Ordered(f.lines) && Holds(memory, raw, FunctionBytes(f)) && |FunctionBytes(f)| < U32_LIMIT
    ensures
      var at := raw + |f.name| + 1;
      && Holds(memory, raw, StringBytes(f.name)) && at + 20 <= |memory|
      && memory[raw..at - 1] == f.name
      && ReadU64(memory, at) == f.address && ReadU64(memory, at + 8) == f.size
      && ReadI32(memory, at + 16) == f.parameter_size
      && Stands(StaticMap(memory, at + 20), f.lines, LinePtrBytes)
  {
    hide Ordered;
    hide Encode;
    hide Decode;
    hide ReadU64;
    hide ReadI32;
    hide MapBytes;
    hide Concat;
    var at := raw + |f.name| + 1;
    var lines := RangeMapSerializers.RangeMapBytes(f.lines, LinePtrBytes);
    HoldsFits(memory, raw, FunctionBytes(f));
    HoldsConcat(memory, raw, StringBytes(f.name), U64(f.address) + (U64(f.size) + (I32(f.parameter_size) + lines)));
    HoldsConcat(memory, raw, f.name, [0]);
    HoldsConcat(memory, at, U64(f.address), U64(f.size) + (I32(f.parameter_size) + lines));
    HoldsConcat(memory, at + 8, U64(f.size), I32(f.parameter_size) + lines);
    HoldsConcat(memory, at + 16, I32(f.parameter_size), lines);
    ReadsBackU64(memory, at, f.address);
    ReadsBackU64(memory, at + 8, f.size);
    ReadsBackI32(memory, at + 16, f.parameter_size);
    MapSize(Keys(f.lines), RangeMapSerializers.Values(f.lines, LinePtrBytes));
  }
}
