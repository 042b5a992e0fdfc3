# Breakpad's in-memory indexes, their serialized twins, and four small engines

A Dafny model of the template and inline code that ships complete in the bundled Breakpad headers,
with proofs of what that code promises. Check it with `dafny verify dfyconfig.toml`.

| files | what they model |
|---|---|
| `Addresses.dfy`, `Unsigned.dfy` | 64-bit addresses, their wrap-around, and the key searches of `std::map`; unsigned arithmetic of any width |
| `Forests.dfy`, `InsertionOrder.dfy`, `ContainedRangeMap.dfy` | the tree of nested ranges: its value, what a store and a lookup mean, why order does not matter, and the class that rewrites nodes in place |
| `StoredRanges.dfy`, `RangeMap.dfy`, `RangeMapRuns.dfy` | disjoint ranges under three merge strategies: the closed form of a store, the self-calling method, whole runs, and the duality of the two truncating strategies |
| `Bytes.dfy`, `MapLayout.dfy`, `Writing.dfy` | bytes in memory, the layout of a serialized map, and how a writer fills it in place |
| `StdMapSerializer.dfy`, `RangeMapSerializer.dfy`, `ContainedRangeMapSerializer.dfy`, `SymbolTypes.dfy` | the writers, and the readers of `Line` and `Function` |
| `StaticMap.dfy`, `StaticRangeMap.dfy`, `StaticContainedRangeMap.dfy` | lookups made directly on the bytes |
| `SerializedLookups.dfy` | the whole way: a map written, opened again and asked, and from an address to the line of its function |
| `Words.dfy`, `PostfixMachine.dfy`, `PostfixEvaluator.dfy`, `PostfixCompiler.dfy`, `PostfixAlign.dfy` | the postfix evaluator, the meaning of the programs it runs, and its alignment operator |
| `LinkedPtr.dfy` | shared ownership through circular lists |
| `PageAllocator.dfy` | the page allocator |
| `ByteCursor.dfy` | the byte cursor |

## What is proved

**Contained ranges.** `StoreRange` returns true exactly when the size is not zero, the range does not
wrap, and it neither repeats nor partially overlaps a stored range at any depth. True adds exactly
that range, false changes nothing, and the tree stays well formed. A lookup returns the entry of the
smallest stored range around the address. A well-formed tree is determined by its set of ranges, so
any two orders of the same stores succeed or fail together and end in the same tree. When refused
stores are skipped instead, the order does not matter exactly when no two different requests that
could be stored stand in each other's way.

**Disjoint ranges.** For each merge strategy a store is accepted under a condition on the old map
alone, and the new map is given by a closed form: old ranges trimmed one by one, the new one fitted
among them. The method, which adjusts and calls itself, is proved equal to the closed form, to
terminate, and never to wrap. Over any run of calls each accepted request keeps exactly one stored
range inside what was asked for, with base minus delta its original base. A `kTruncateUpper` store is
a `kTruncateLower` store seen from the other end of the address space.

**Serialized maps.** Writers fill exactly `SizeOf` bytes, and the lookups on those bytes find the
ranges of the map they were written from and the bytes of their entries, for every address, index and
nesting depth. For disjoint ranges the entries agree everywhere exactly when none of them is null.

**Postfix evaluator.** A program of assignments, written as a program string with or without `=`
glued to the next word, evaluates to what it means, although identifiers are looked up only when
popped and values travel through decimal text. It is undefined exactly when the first statement that
stops divides by zero, evaluated from left to right, or assigns a value to a negative literal. What each operator computes is stated on its
token, which words are numbers by their characters, and how a string falls into words separator by
separator. On every string, constants keep their values and the marks
name exactly the keys written; a string without division and without negative literals is never
undefined.

**Ownership, allocation, reading.** Each captured object is deleted once, when its last owner leaves.
Allocated blocks are disjoint and clear of page headers. Reading an integer inverts writing it in both
byte orders and with either sign.

## Where the code and its comments disagree, or a promise fails

- The comment on `RangeMap::StoreRange` (`breakpad/include/processor/range_map.h:76-80`) speaks of a
  flag `enable_shrink_down`, which does not exist; the merge strategy decides.
- `static_map.h` describes serialized maps that the validator accepts. A `std::map` with an empty
  value (a null `linked_ptr`) anywhere but last is written and read correctly and still refused,
  because two offsets are equal. `StdMapSerializers.WrittenStdMapValidates` gives the exact condition
  and `NullFirstValueIsRefused` a concrete map. Maps written from a `RangeMap` always pass.
- A `StaticRangeMap` never reports a null entry. Where the map holds a null pointer, its serialized form
  points at whatever comes next, after the last value at the end of the buffer.
  `StaticRangeMaps.StaticRangeMap.AnswersAgreeIffNoNull` gives the exact condition and `SymbolTypes.NullLineIsMisread` two lines for which the wrong one is read.
  `StaticContainedRangeMap` does report null.
- The alignment operator is documented to give a multiple of the alignment size. It does so for every
  input exactly when the size is a power of two: `PostfixAlign.AlignTruncatesIffPowerOfTwo`; 3 aligned
  to 3 gives 1.
- Assigning to a literal is documented to fail. When the literal is negative the code stores through
  a null pointer instead. The outcome `Undefined` stands for that and for division by zero, and is
  characterised exactly: for one assignment by `PostfixMachine.AssignUndefinedExactly`, for a statement
  with any target by `PostfixCompiler.StmtRuns`, and for programs and expressions by
  `PostfixCompiler.ProgramStringEvaluates` and `ExprStringEvaluates`.
- `Alloc` adds the header and rounds up in the width of `size_t`. The pages it asks for have room for
  the block exactly when that does not wrap: `PageAllocators.PageAllocator.RoomIffNoWrap`; the largest
  request asks for a single page.
- The sizes that `Serialize` allocates and that `SizeOf` returns for a `Function` are kept in 32 bits;
  they are right exactly below 2^32 bytes: the three `SizeToAlloc` and `SymbolTypes.SizeOfFunction`.
  `StdMapSerializers.LargeMapGetsTooLittle` and `SymbolTypes.LongNameHasNoSize` are concrete sizes past
  that.
- A name with a zero byte inside is written up to that byte only, and its reader stops there.

## Model

| member | source | states |
|---|---|---|
| Addresses.AcceptableMeansNoWrap | breakpad/include/processor/range_map-inl.h:60-72 | the guard, which compares the wrapped high address with the base, refuses exactly empty ranges and ranges past the top address |
| Addresses.WrapIsModular | breakpad/include/processor/range_map-inl.h:60 | address arithmetic keeps results modulo 2^64 |
| Forests.TreeRangesWithin | breakpad/include/processor/contained_range_map.h:39-42 | every range below a node lies inside the node and none has the node's own geometry |
| Forests.RetrieveIsMostSpecific | breakpad/include/processor/contained_range_map-inl.h:151-178 | a lookup finds the unique smallest range containing the address, and finds nothing exactly when no stored range contains it |
| Forests.StoreMeaning | breakpad/include/processor/contained_range_map-inl.h:75-146 | a store succeeds exactly when the range repeats and crosses no stored one; it then adds exactly that range and keeps the tree well formed |
| InsertionOrder.CanonicalForest | breakpad/include/processor/contained_range_map.h:50-56 | two well-formed trees with the same ranges are the same tree |
| InsertionOrder.StoreAllMeaning | breakpad/include/processor/contained_range_map-inl.h:57-147 | a list of stores succeeds throughout exactly when the requests are valid and agree pairwise and with what was stored before |
| InsertionOrder.OrderDoesNotMatter | breakpad/include/processor/contained_range_map.h:35-37 | any reordering of a list of stores succeeds or fails alike and ends in the same tree, from any starting tree |
| InsertionOrder.AnyOrderGivesSameAnswers | breakpad/include/processor/contained_range_map.h:32-37 | pairwise nested or disjoint ranges can be stored in any order and every address is then answered alike |
| InsertionOrder.StoreEachMeaning | breakpad/include/processor/contained_range_map-inl.h:57-147 | with refused stores skipped, exactly the requests acceptable at the start are added, as long as no two different ones stand in each other's way |
| InsertionOrder.SkippingIgnoresOrderIff | breakpad/include/processor/contained_range_map.h:35-37 | with refused stores skipped, every order of a list ends in the same tree exactly when no two different requests acceptable at the start stand in each other's way |
| InsertionOrder.StoreInTurn | breakpad/include/processor/contained_range_map-inl.h:57-147 | stores made one after the other on a map end in the forest of the stores on values, and tell whether all were accepted |
| ContainedRangeMaps.ContainedRangeMap.constructor | breakpad/include/processor/contained_range_map.h:75-78 | a new root is a valid, empty map |
| ContainedRangeMaps.ContainedRangeMap.Adopt | breakpad/include/processor/contained_range_map.h:118-123 | a new inner node takes over the children it is given and nothing else |
| ContainedRangeMaps.ContainedRangeMap.StoreRange | breakpad/include/processor/contained_range_map-inl.h:57-147 | true exactly for a valid, compatible range; true adds it alone, false changes nothing; the tree invariant holds afterwards |
| ContainedRangeMaps.ContainedRangeMap.StoreBelow | breakpad/include/processor/contained_range_map-inl.h:57-147 | the in-place update, recursive through the children, equals the store on values |
| ContainedRangeMaps.ContainedRangeMap.StoreInChild | breakpad/include/processor/contained_range_map-inl.h:94-95 | only the child that was descended into changes |
| ContainedRangeMaps.ContainedRangeMap.Reparent | breakpad/include/processor/contained_range_map-inl.h:118-146 | a run of children moves under one new node, order and all other children kept |
| ContainedRangeMaps.ContainedRangeMap.RetrieveRange | breakpad/include/processor/contained_range_map-inl.h:151-178 | the lookup through the nodes equals the lookup on values |
| ContainedRangeMaps.ContainedRangeMap.Clear | breakpad/include/processor/contained_range_map-inl.h:182-191 | every descendant is deleted exactly once and none is left |
| ContainedRangeMaps.ContainedRangeMap.Delete | breakpad/include/processor/contained_range_map-inl.h:185-186 | deleting a child deletes all below it and leaves its siblings as they are |
| StoredRanges.NewHigh | breakpad/include/processor/range_map-inl.h:84-86 | the new range ends just below the lowest stored start above base, or at its own high |
| StoredRanges.NewBase | breakpad/include/processor/range_map-inl.h:100-105 | the new range starts just above the highest stored end below high, or at its own base |
| StoredRanges.Trim | breakpad/include/processor/range_map-inl.h:87-96 | an old range that does not straddle is left alone; one that does keeps its entry, base minus delta, and exactly its addresses below the new range (kTruncateLower) or above it (kTruncateUpper) |
| StoredRanges.Fit | breakpad/include/processor/range_map-inl.h:84-105 | the new range keeps its entry and base minus delta, and exactly the asked addresses below every stored start above its base (kTruncateLower) or above every stored end below its high (kTruncateUpper) |
| StoredRanges.PlacedMeaning | breakpad/include/processor/range_map-inl.h:57-179 | an accepted store is the trimmed old ranges with the fitted new one in its place, ordered and disjoint |
| StoredRanges.StepInsert | breakpad/include/processor/range_map-inl.h:175-178 | with nothing in the way a plain insertion is the closed form |
| StoredRanges.StepShortenNew | breakpad/include/processor/range_map-inl.h:125-128 | ending the new range before the first start above base does not change the result |
| StoredRanges.StepRaiseNew | breakpad/include/processor/range_map-inl.h:100-105 | starting the new range after a range that ends inside it does not change the result |
| StoredRanges.StepTrim | breakpad/include/processor/range_map-inl.h:129-158 | trimming a range in the way by erase and insert keeps the map sound, the result the same, and leaves fewer ranges in the way |
| StoredRanges.Refused | breakpad/include/processor/range_map-inl.h:97-118 | the refusing branches refuse only what the closed form refuses |
| StoredRanges.LookupMeaning | breakpad/include/processor/range_map-inl.h:183-210 | a lookup reports the one range containing the address with its exact base, delta and size |
| StoredRanges.NearestMeaning | breakpad/include/processor/range_map-inl.h:214-243 | failing that, the last range ending below the address, and nothing exactly when all lie above |
| StoredRanges.AnswersAfterStore | breakpad/include/processor/range_map.h:52-65 | which entry every address finds after a store under each strategy: the new one where it gets the address, none where a straddling range lost it, and otherwise the old one |
| RangeMaps.RangeMap.constructor | breakpad/include/processor/range_map.h:70 | a new map is empty and exclusive |
| RangeMaps.RangeMap.SetMergeStrategy | breakpad/include/processor/range_map.h:72 | the strategy changes and no range does |
| RangeMaps.RangeMap.StoreRange | breakpad/include/processor/range_map-inl.h:50-54 | accepted exactly under the strategy's condition; the new map is the closed form, or the old map on refusal |
| RangeMaps.RangeMap.StoreRangeInternal | breakpad/include/processor/range_map-inl.h:57-179 | the same for a request that carries a delta, through all its own recursive calls, which terminate and do not wrap |
| RangeMaps.RangeMap.TruncateLowerRange | breakpad/include/processor/range_map-inl.h:82-99 | the three-way kTruncateLower branch, which the source has twice, reaches the closed form |
| RangeMaps.RangeMap.LowerOther | breakpad/include/processor/range_map-inl.h:129-137 | erase and insert cut the lower range to end just below base |
| RangeMaps.RangeMap.RaiseOther | breakpad/include/processor/range_map-inl.h:142-156 | erase and insert move the upper range to start just above high, its delta grown by the shift |
| RangeMaps.RangeMap.RetrieveRangeAtIndex | breakpad/include/processor/range_map-inl.h:247-273 | the walk reports the range at the index, and nothing past the end |
| RangeMaps.RangeMap.Clear | breakpad/include/processor/range_map-inl.h:283-285 | the map is empty and keeps its strategy |
| RangeMapRuns.RunKeepsEveryRange | breakpad/include/processor/range_map.h:81-122 | after any run of stores, strategy changes and clears, ranges are disjoint and stand one to one for the accepted requests, each inside its request with base minus delta the base asked for |
| RangeMapRuns.RunOnMap | breakpad/include/processor/range_map-inl.h:50-54 | any list of calls made on a map ends in the state the run says |
| RangeMapDuality.UpperIsLowerMirrored | breakpad/include/processor/range_map-inl.h:57-179 | a kTruncateUpper store is the mirror image of a kTruncateLower store, acceptance included, deltas aside |
| MapLayout.MapSize | breakpad/include/processor/static_map.h:35-53 | the areas of a serialized map have the documented sizes and add up |
| MapLayout.MapReadsBack | breakpad/include/processor/static_map-inl.h:46-57 | count, offsets, keys and the bytes of every value read back from the layout |
| Bytes.EncodedByte | breakpad/include/processor/simple_serializer.h:54-59 | byte i of a stored integer is its digit of weight 256^i |
| Bytes.SignedByte | breakpad/include/processor/simple_serializer.h:54-59 | signed integers are stored in two's complement, least significant byte first |
| Writing.WriteBytes | breakpad/include/processor/simple_serializer.h:54-59 | a write changes exactly its own bytes and returns the address after them |
| Writing.WriteNode | breakpad/include/processor/map_serializers-inl.h:156-164 | one turn of a writer's loop fills the next offset, key and value and disturbs no other area |
| StdMapSerializers.SizeOf | breakpad/include/processor/map_serializers-inl.h:55-67 | the size computed is the number of bytes written |
| StdMapSerializers.SizeToAlloc | breakpad/include/processor/map_serializers-inl.h:103 | the size allocated is kept in 32 bits, and is the number of bytes written exactly below 2^32 |
| StdMapSerializers.Write | breakpad/include/processor/map_serializers-inl.h:70-97 | exactly the bytes from dest to the returned address become the serialized map |
| StdMapSerializers.Serialize | breakpad/include/processor/map_serializers-inl.h:100-117 | a buffer of exactly the map's bytes, below 2^32 bytes |
| StdMapSerializers.LargeMapGetsTooLittle | breakpad/include/processor/map_serializers-inl.h:103 | for one value of 2^32 bytes, 16 bytes are allocated |
| StdMapSerializers.WrittenStdMapValidates | breakpad/include/processor/static_map-inl.h:124-162 | a written std::map passes the validator exactly when no value but the last is empty |
| StdMapSerializers.NullFirstValueIsRefused | breakpad/include/processor/static_map-inl.h:148-153 | a concrete two-entry map with a null first value is refused |
| RangeMapSerializers.SizeOf | breakpad/include/processor/map_serializers-inl.h:119-135 | the size computed is the number of bytes written |
| RangeMapSerializers.SizeToAlloc | breakpad/include/processor/map_serializers-inl.h:172-173 | the size allocated is kept in 32 bits, and is the number of bytes written exactly below 2^32 |
| RangeMapSerializers.Write | breakpad/include/processor/map_serializers-inl.h:138-166 | exactly the bytes from dest to the returned address become the serialized map |
| RangeMapSerializers.Serialize | breakpad/include/processor/map_serializers-inl.h:169-186 | a buffer of exactly the map's bytes, below 2^32 bytes |
| ContainedRangeMapSerializers.WriteHeader | breakpad/include/processor/map_serializers-inl.h:218-221 | base, entry size and entry are written in this order and nothing else is touched |
| ContainedRangeMapSerializers.SizeOf | breakpad/include/processor/map_serializers-inl.h:190-209 | the recursive size is the number of bytes written |
| ContainedRangeMapSerializers.SizeToAlloc | breakpad/include/processor/map_serializers-inl.h:251-253 | the size allocated is kept in 32 bits, and is the number of bytes written exactly below 2^32 |
| ContainedRangeMapSerializers.Write | breakpad/include/processor/map_serializers-inl.h:212-246 | exactly the bytes from dest to the returned address become the serialized tree, at any depth |
| ContainedRangeMapSerializers.WriteChildren | breakpad/include/processor/map_serializers-inl.h:223-245 | the children's map, each child written by the same writer |
| ContainedRangeMapSerializers.Serialize | breakpad/include/processor/map_serializers-inl.h:249-262 | a buffer of exactly the tree's bytes, below 2^32 bytes |
| StaticMaps.StaticMap.Find | breakpad/include/processor/static_map-inl.h:62-79 | the binary search finds the key exactly when it is there |
| StaticMaps.StaticMap.LowerBound | breakpad/include/processor/static_map-inl.h:83-100 | the binary search gives the index a linear scan gives |
| StaticMaps.StaticMap.UpperBound | breakpad/include/processor/static_map-inl.h:104-121 | the binary search gives the index a linear scan gives |
| StaticMaps.StaticMap.ValidateInMemoryStructure | breakpad/include/processor/static_map-inl.h:124-162 | true exactly for a non-negative count, the right first offset, and strictly ascending offsets and keys |
| StaticMaps.StaticMap.ValuesFollowHeader | breakpad/include/processor/static_map-inl.h:124-162 | in a buffer that validates the first value starts right after the header and none starts inside it |
| StaticMaps.WrittenMapValidates | breakpad/include/processor/static_map-inl.h:124-162 | a written map validates exactly when its keys ascend and no value but the last is empty |
| StaticRangeMaps.WrittenRangeMapValidates | breakpad/include/processor/static_map-inl.h:124-162 | every map written from a RangeMap validates |
| StaticRangeMaps.StaticRangeMap.AnswersAgreeIffNoNull | breakpad/include/processor/static_range_map.h:91-93 | the answers agree with RangeMap's at every address exactly when no entry is null |
| StaticRangeMaps.StaticRangeMap.RetrieveRange | breakpad/include/processor/static_range_map-inl.h:45-72 | same range as RangeMap for every address, with a pointer to the entry's own bytes; the same answer exactly when the entry found is not null |
| StaticRangeMaps.StaticRangeMap.RetrieveNearestRange | breakpad/include/processor/static_range_map-inl.h:76-102 | the same for the nearest range |
| StaticRangeMaps.StaticRangeMap.RetrieveRangeAtIndex | breakpad/include/processor/static_range_map-inl.h:105-125 | the same for the range at an index |
| StaticContainedRangeMaps.NodeParts | breakpad/include/processor/static_contained_range_map-inl.h:46-55 | the constructor's reads give the node's base, entry size, entry and child map |
| StaticContainedRangeMaps.ChildStands | breakpad/include/processor/static_contained_range_map-inl.h:73-76 | the offset of a child leads to that child's own serialized node |
| StaticContainedRangeMaps.RetrieveRange | breakpad/include/processor/static_contained_range_map-inl.h:59-88 | same answer as ContainedRangeMap for every address and depth, with a pointer to the entry's own bytes, null for an entry of no bytes |
| SerializedLookups.AskTree | breakpad/include/processor/static_contained_range_map-inl.h:46-88 | a tree, serialized and opened again, gives the tree's own answer at every address |
| SerializedLookups.AskRanges | breakpad/include/processor/static_range_map-inl.h:45-72 | disjoint ranges, serialized and opened again, give the same range and, unless it is null, the same entry |
| SymbolTypes.SizeOfLine | breakpad/include/processor/simple_serializer-inl.h:101-106 | the size of a line is the number of bytes written |
| SymbolTypes.SizeOfLinePtr | breakpad/include/processor/simple_serializer-inl.h:173-176 | the same through a pointer, and nothing for a null one |
| SymbolTypes.SizeOfFunction | breakpad/include/processor/simple_serializer-inl.h:190-198 | the size of a function is the number of bytes written, modulo 2^32 |
| SymbolTypes.LongNameHasNoSize | breakpad/include/processor/simple_serializer-inl.h:190-198 | a name for which the 32-bit sum is 0 |
| SymbolTypes.WriteLine | breakpad/include/processor/simple_serializer-inl.h:107-113 | a line's fields are written in layout order inside their window |
| SymbolTypes.WriteLinePtr | breakpad/include/processor/simple_serializer-inl.h:177-181 | a null pointer writes nothing, any other its line |
| SymbolTypes.WriteString | breakpad/include/processor/simple_serializer-inl.h:77-80 | the string up to its first zero byte, and the address after the whole string |
| SymbolTypes.WriteFunction | breakpad/include/processor/simple_serializer-inl.h:200-207 | a function's fields and its serialized map of lines are written inside their window, and of its name the part before a zero byte |
| SymbolTypes.WriteFields | breakpad/include/processor/simple_serializer-inl.h:202-205 | the fields after the name in layout order, the lines in their own serialized map |
| SymbolTypes.LineReadsBack | breakpad/include/processor/fast_source_line_resolver_types.h:63-70 | CopyFrom recovers every field of a written line, at offsets 0, 8, 16 and 20 |
| SymbolTypes.FunctionParts | breakpad/include/processor/fast_source_line_resolver_types.h:81-91 | the fields of a written function and its lines stand at offsets 0, 8, 16 and 20 after the name |
| SymbolTypes.LinesAnswer | breakpad/include/processor/fast_source_line_resolver_types.h:63-70 | reading the line at the pointer a lookup gives yields the line stored there, when it is not null |
| SymbolTypes.LinesAgreeIffNoNull | breakpad/include/processor/static_range_map.h:91-93 | a function's lines answer as written at every address exactly when no line is null |
| SymbolTypes.NullLineIsMisread | breakpad/include/processor/static_range_map.h:91-93 | for two ranges, the first with a null line, the lookup of the first yields the bytes of the second |
| SymbolTypes.StrLen | breakpad/include/processor/fast_source_line_resolver_types.h:82 | the scan stops at the first zero byte of the name or at its terminator |
| SymbolTypes.CopyFunction | breakpad/include/processor/fast_source_line_resolver_types.h:81-91 | CopyFrom recovers every written field, and the nested map stands on the lines that were written |
| SerializedLookups.FindLine | breakpad/include/processor/fast_source_line_resolver_types.h:63-91 | in a serialized map of functions, the line of an address is the one the functions' own maps give |
| Words.DecimalReadsBack | breakpad/include/processor/postfix_evaluator-inl.h:353-357 | the printed decimal reads back as the number |
| Words.NumeralIsPositional | breakpad/include/processor/postfix_evaluator-inl.h:300 | numerals are decimal: each digit further left counts ten times as much |
| Words.DecimalIsCanonical | breakpad/include/processor/postfix_evaluator-inl.h:353-357 | what is printed is the one numeral of the value without leading zeros |
| Words.SignsBeforeLiteral | breakpad/include/processor/postfix_evaluator-inl.h:282-306 | the value of a numeral behind each sign that may stand there, for both kinds of library the comment speaks of |
| Words.LiteralIffNumber | breakpad/include/processor/postfix_evaluator-inl.h:282-311 | a word is a literal exactly when it is a sign the reader takes followed by digits alone, of a value below the modulus |
| Words.NumberCharacters | breakpad/include/processor/postfix_evaluator-inl.h:282-311 | a literal has no other characters than digits and signs, and ends in a digit |
| Words.PrintedValueIsLiteral | breakpad/include/processor/postfix_evaluator-inl.h:282-306 | a pushed value is popped as the same literal |
| Words.SplitJoin | breakpad/include/processor/postfix_evaluator-inl.h:208-211 | extracting tokens from space-separated words gives the words |
| Words.SplitSkips | breakpad/include/processor/postfix_evaluator-inl.h:211 | separators in front of a word are skipped, however many there are |
| Words.SplitWord | breakpad/include/processor/postfix_evaluator-inl.h:211 | a word is extracted whole up to any separator, and extraction goes on after it |
| Words.SplitLast | breakpad/include/processor/postfix_evaluator-inl.h:211 | a word on its own is one token |
| Words.SpacesByCode | breakpad/include/processor/postfix_evaluator-inl.h:211 | words are separated by the space and the characters from tab to carriage return |
| PostfixMachine.OperatorComputes | breakpad/include/processor/postfix_evaluator-inl.h:85-152 | each operator token pops its right operand first and pushes the sum, difference or product modulo 2^w, the quotient, the remainder, or the bits kept by alignment; it fails exactly when an operand has no value and is undefined exactly when it divides by zero |
| PostfixMachine.PushedStep | breakpad/include/processor/postfix_evaluator-inl.h:194-200 | every token but the six operators, "^" and "=" is pushed as it is |
| PostfixMachine.UnglueSplitsOnce | breakpad/include/processor/postfix_evaluator-inl.h:213-228 | "=x" is "=" and "x", "==x" is "=" and "=x", and every other word stays as it is |
| PostfixMachine.VariablesStartWithDollar | breakpad/include/processor/postfix_evaluator-inl.h:186-190 | the names that can be assigned to are those that start with a dollar sign |
| PostfixMachine.RunWritesOnlyVariables | breakpad/include/processor/postfix_evaluator.h:101-107 | however a run ends, only variables change and the marks gain exactly the keys written |
| PostfixMachine.AssignUndefinedExactly | breakpad/include/processor/postfix_evaluator-inl.h:169-184 | assignment stores through a null pointer exactly when a value is assigned to a negative literal |
| PostfixMachine.HarmlessRunIsDefined | breakpad/include/processor/postfix_evaluator-inl.h:101-193 | without division and without negative literals no run is undefined |
| PostfixMachine.NegativeTargetIsUndefined | breakpad/include/processor/postfix_evaluator-inl.h:300-306 | "-5 3 =" and "-+5 3 =" are undefined where "5 3 =" fails |
| PostfixEvaluators.PostfixEvaluator.PopValueOrIdentifier | breakpad/include/processor/postfix_evaluator-inl.h:273-313 | pops one entry and classifies it; reports the negation through a missing place |
| PostfixEvaluators.PostfixEvaluator.PopOneValue | breakpad/include/processor/postfix_evaluator-inl.h:317-342 | pops one entry and resolves an identifier in the dictionary of that moment |
| PostfixEvaluators.PostfixEvaluator.PopValues | breakpad/include/processor/postfix_evaluator-inl.h:346-349 | the second operand is popped first, and the first only if that succeeded |
| PostfixEvaluators.PostfixEvaluator.PushValue | breakpad/include/processor/postfix_evaluator-inl.h:353-357 | the value's decimal text goes on top |
| PostfixEvaluators.PostfixEvaluator.EvaluateToken | breakpad/include/processor/postfix_evaluator-inl.h:70-202 | one token updates stack, dictionary and marks as the machine's step says |
| PostfixEvaluators.PostfixEvaluator.EvaluateInternal | breakpad/include/processor/postfix_evaluator-inl.h:205-231 | the loop runs the words in turn, "=x" as "=" and then "x", and stops at the first failure |
| PostfixEvaluators.PostfixEvaluator.Evaluate | breakpad/include/processor/postfix_evaluator-inl.h:234-250 | succeeds exactly when the run does and leaves nothing; the stack is empty in every case; never undefined without division and negative literals |
| PostfixEvaluators.PostfixEvaluator.EvaluateForValue | breakpad/include/processor/postfix_evaluator-inl.h:253-269 | yields the one value left, and fails when not exactly one entry with a value is left |
| PostfixCompiler.EvalComputes | breakpad/include/processor/postfix_evaluator-inl.h:111-142 | the value of an operation is the sum, difference, product, quotient, remainder or alignment of its operands' values, in their order |
| PostfixCompiler.ExprRuns | breakpad/include/processor/postfix_evaluator-inl.h:101-142 | the postfix form of an expression leaves one entry that stands for its value, or stops without writing, undefined exactly when it comes to a division by zero |
| PostfixCompiler.StmtRuns | breakpad/include/processor/postfix_evaluator-inl.h:166-193 | a statement updates its target and restores the stack exactly when its value exists and its target is a variable; it is undefined exactly when the value comes to a division by zero, or exists and the target is a negative literal |
| PostfixCompiler.ProgramRuns | breakpad/include/processor/postfix_evaluator-inl.h:205-231 | a sequence of assignments to any targets has the meaning of its statements in order, up to the first that stops, undefined exactly as that statement is |
| PostfixCompiler.ProgramStringEvaluates | breakpad/include/processor/postfix_evaluator-inl.h:205-250 | the program string, spaced or glued, succeeds exactly when every statement has a value and a variable for a target, is undefined exactly as the first statement that stops is, and leaves the dictionary the statements build |
| PostfixCompiler.EvaluateProgram | breakpad/include/processor/postfix_evaluator-inl.h:234-250 | Evaluate on a program string ends in the dictionary, marks and outcome the program means |
| PostfixCompiler.ExprStringEvaluates | breakpad/include/processor/postfix_evaluator-inl.h:253-269 | an expression string yields the expression's value, or nothing when it has none, and is undefined exactly when it comes to a division by zero |
| PostfixCompiler.EvaluateExpression | breakpad/include/processor/postfix_evaluator-inl.h:253-269 | EvaluateForValue on an expression string gives the expression's value, and tells no value from a division by zero |
| PostfixAlign.AlignTruncatesIffPowerOfTwo | breakpad/include/processor/postfix_evaluator.h:47-49 | the result is the greatest multiple of the size not above the input, for all inputs, exactly when the size, zero included, is a power of two |
| PostfixAlign.AlignToThreeFails | breakpad/include/processor/postfix_evaluator-inl.h:127-130 | 3 aligned to 3 gives 1 |
| LinkedPtrs.LinkedPtr.JoinNew | breakpad/include/processor/linked_ptr.h:68-70 | the pointer is alone on its circle |
| LinkedPtrs.LinkedPtr.Join | breakpad/include/processor/linked_ptr.h:73-78 | the walk ends, and the circle is the old one with the new pointer before ptr |
| LinkedPtrs.LinkedPtr.DepartCircle | breakpad/include/processor/linked_ptr.h:82-88 | true exactly for the last member; otherwise the circle is the old one without this pointer |
| LinkedPtrs.LinkedPtr.constructor | breakpad/include/processor/linked_ptr.h:101 | a new owner of a captured object, or a null pointer |
| LinkedPtrs.LinkedPtr.Copy | breakpad/include/processor/linked_ptr.h:105-106 | one more live owner of the same object |
| LinkedPtrs.LinkedPtr.Capture | breakpad/include/processor/linked_ptr.h:159-162 | the object is captured and owned by this pointer alone |
| LinkedPtrs.LinkedPtr.CopyFrom | breakpad/include/processor/linked_ptr.h:164-170 | joins the circle of the copied pointer, or stands alone when it is null |
| LinkedPtrs.LinkedPtr.Depart | breakpad/include/processor/linked_ptr.h:155-157 | the object is deleted exactly when no other live pointer holds it |
| LinkedPtrs.LinkedPtr.AssignOther | breakpad/include/processor/linked_ptr.h:109-113 | the same from a pointer of another type, which needs no test for itself |
| LinkedPtrs.LinkedPtr.Assign | breakpad/include/processor/linked_ptr.h:115-121 | the old object is deleted exactly when this was its last owner; assigning to itself changes nothing |
| LinkedPtrs.LinkedPtr.Reset | breakpad/include/processor/linked_ptr.h:124 | the old object is let go as by assignment and the new one captured |
| LinkedPtrs.LinkedPtr.Release | breakpad/include/processor/linked_ptr.h:128-135 | a sole owner hands its object back undeleted and stays as a null pointer |
| LinkedPtrs.LinkedPtr.Destroy | breakpad/include/processor/linked_ptr.h:102 | the last owner's destruction deletes the object |
| LinkedPtrs.DeletedWhenUnowned | breakpad/include/processor/linked_ptr.h:30-34 | in every reachable state an object is deleted, once, exactly when it was captured and has no live owner, and its circle is exactly its live owners |
| PageAllocators.LastPage | breakpad/include/common/memory_allocator.h:89-98 | the page count is enough and not one too many, and the offset formula marks where the block ends in the last page |
| PageAllocators.PageAllocator.RoomIffNoWrap | breakpad/include/common/memory_allocator.h:89-90 | the pages asked for have room for header and block exactly when the rounding does not wrap |
| PageAllocators.PageAllocator.LargestRequestGetsOnePage | breakpad/include/common/memory_allocator.h:89-90 | with pages of 4096 bytes the largest request asks for one page, too few for it |
| PageAllocators.PageAllocator.constructor | breakpad/include/common/memory_allocator.h:62-68 | a new allocator is valid and owns nothing |
| PageAllocators.PageAllocator.Alloc | breakpad/include/common/memory_allocator.h:74-101 | null exactly for zero bytes or a failed mapping, and then nothing changes; otherwise one block disjoint from all others, inside mapped pages, clear of headers, at the start of the free tail or right after a new header, with all that is left of the page free |
| PageAllocators.PageAllocator.StartPages | breakpad/include/common/memory_allocator.h:89-100 | a block right after the header of new pages, with the whole rest of the last page free |
| PageAllocators.PageAllocator.Bump | breakpad/include/common/memory_allocator.h:78-87 | a block at the start of the free tail, with the whole rest of the tail still free |
| PageAllocators.PageAllocator.GetNPages | breakpad/include/common/memory_allocator.h:118-138 | the new region heads the list of headers and pages_allocated grows by its pages |
| PageAllocators.PageAllocator.OwnsPointer | breakpad/include/common/memory_allocator.h:105-113 | true exactly for addresses in a mapped region |
| PageAllocators.PageAllocator.BlocksAreOwned | breakpad/include/common/memory_allocator.h:103-113 | every byte of every block is owned |
| PageAllocators.PageAllocator.FreeAll | breakpad/include/common/memory_allocator.h:140-147 | every region is unmapped once, with the size it was mapped with, and its header is not read after that |
| ByteCursors.InterpretEncoded | breakpad/include/common/byte_cursor.h:113-117 | what Read makes of an encoded integer is that integer, in both byte orders, signed or not |
| ByteCursors.EncodedIntegerByte | breakpad/include/common/byte_cursor.h:113-130 | which digit of the number stands at each place of the field, in either byte order and for negative numbers |
| ByteCursors.InterpretUnsigned | breakpad/include/common/byte_cursor.h:113-130 | a field of any width, wider than the type included, reads as the number modulo the type's range |
| ByteCursors.SignExtends | breakpad/include/common/byte_cursor.h:131-134 | exclusive-or with the sign bit and subtracting it repeats the sign up to the type's width |
| ByteCursors.ByteCursor.constructor | breakpad/include/common/byte_cursor.h:85-87 | a new cursor stands at the start and is complete |
| ByteCursors.ByteCursor.CheckAvailable | breakpad/include/common/byte_cursor.h:239-247 | without enough bytes the cursor goes to the end and the failure is kept |
| ByteCursors.ByteCursor.Read | breakpad/include/common/byte_cursor.h:119-141 | reads the value of the next bytes and steps over them, or fails with the dummy value; the failure flag is never cleared |
| ByteCursors.ByteCursor.Accumulate | breakpad/include/common/byte_cursor.h:121-130 | the two loops compute the value of the bytes in their order, as far as the type holds it |
| ByteCursors.ByteCursor.Skip | breakpad/include/common/byte_cursor.h:229-233 | steps over the bytes, or goes to the end and fails |
| ByteCursors.ByteCursor.CString | breakpad/include/common/byte_cursor.h:169-181 | the string up to the next zero and past it, or failure when there is none |
| ByteCursors.ByteCursor.CStringField | breakpad/include/common/byte_cursor.h:196-209 | the string in a fixed-width field, stopped by a zero or by the field's end |

## Left out

- Address and key types other than `uint64_t`, custom comparison functors, and `StaticMap<int, char>`.
- A null child map in `ContainedRangeMap` is the same as an empty one.
- The cast of the number of entries to `int` in `RangeMap::GetCount`, for maps of 2^31 entries or more.
- Host byte order and alignment: integers in memory are little-endian; only writing and reading back the same way is used.
- Entries of serialized maps: the bytes an entry is written as are a parameter. Written out in full are `Line` and `Function`; `PublicSymbol`, `WindowsFrameInfo`, `bool` and C strings have the same shape.
- `StaticMapIterator` steps outside the map, default-constructed `StaticMap` objects, and reading a buffer that ends inside its own header.
- Signed value types in the evaluator, and a null dictionary pointer.
- `linked_ptr` objects of different types on one circle, comparison operators, and an allocator handing out the address of a deleted object again: objects are identities.
- `PageStdAllocator`, the wasteful vectors, and the memory sanitizer calls; mmap's answer is a parameter, assumed to belong to nobody.
- `ByteCursor::PointTo`, `set_here` and the byte-block `Read`, which only move the cursor.
- The HTTP, DWARF, STABS and stack-walking headers, whose bodies are not part of this model, and the crash sample itself.
- Read: a signed field of no bytes, for which the source shifts by a negative amount, is excluded.
- Alloc: a request that wraps 64 bits, does not fit the current page and for which mmap still maps its too few pages is excluded.
- CopyFunction: names without a zero byte, as strlen needs; is_multiple is not written.
- FindLine: the function and the line at the address are not null, and the function's name has no zero byte. The resolver that makes these two lookups is not part of this model.
- Serialize: maps of 2^32 bytes or more, for which too little is allocated, are excluded.
- Release: requires the sole ownership the class asks of its callers.
