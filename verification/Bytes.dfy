// Bytes in memory: fixed-width integers, runs of blocks, and what it means for a buffer to hold
// given bytes at a given place.

module Bytes {
  import opened Options
  import opened Addresses

  type Byte = b: int | 0 <= b < 256

  // ---------------------------------------------------------------- fixed-width integers

  function Pow256(w: nat): (p: nat)
    ensures p > 0
  {
    if w == 0 then 1 else 256 * Pow256(w - 1)
  }

  // The low w bytes of x, least significant first.
  function Encode(x: nat, w: nat): (bs: seq<Byte>)
    ensures |bs| == w
  {
    if w == 0 then [] else [x % 256] + Encode(x / 256, w - 1)
  }

  function Decode(bs: seq<Byte>): nat {
    if bs == [] then 0 else bs[0] + 256 * Decode(bs[1..])
  }

  lemma {:induction false} DecodeEncode(x: nat, w: nat)
    requires x < Pow256(w)
    ensures Decode(Encode(x, w)) == x
  {
    if w > 0 {
      DecodeEncode(x / 256, w - 1);
    }
  }

  // Integers are stored least significant byte first.
  lemma {:induction false} EncodedByte(x: nat, w: nat, i: nat)
    requires i < w
    ensures Encode(x, w)[i] == x / Pow256(i) % 256
  {
    if i > 0 {
      EncodedByte(x / 256, w - 1, i - 1);
      QuotientOfQuotient(x, Pow256(i - 1));
    }
  }

  lemma QuotientOfQuotient(x: nat, p: nat)
    requires p > 0
    ensures x / 256 / p == x / (256 * p)
  {
    var y := x / 256;
    var q, r := y / p, y % p;
    assert y == q * p + r;
    var rest := x - q * (256 * p);
    assert rest == x - 256 * (q * p) && 0 <= rest == 256 * r + x % 256 < 256 * p;
    QuotientIs(x, q, 256 * p, rest);
  }

  lemma QuotientIs(x: int, q: int, m: int, r: int)
    requires 0 <= r < m && x == q * m + r
    ensures x / m == q
  {
    var d := q - x / m;
    assert d * m == x % m - r;
    assert d >= 1 ==> d * m >= m;
    assert d <= -1 ==> d * m <= -m;
  }

  lemma {:induction false} DecodeBound(bs: seq<Byte>)
    ensures Decode(bs) < Pow256(|bs|)
  {
    if bs != [] {
      DecodeBound(bs[1..]);
    }
  }

  const U32_LIMIT := 0x1_0000_0000

  lemma Widths()
    ensures Pow256(4) == U32_LIMIT && Pow256(8) == MAX_ADDRESS + 1
  {
  }

  // What an unsigned int keeps of a size.
  function In32Bits(x: nat): (r: nat)
    ensures r < U32_LIMIT
    ensures r == x <==> x < U32_LIMIT
  {
    x % U32_LIMIT
  }

  function U32(x: nat): seq<Byte> {
    Encode(x, 4)
  }

  function U64(x: Address): seq<Byte> {
    Encode(x, 8)
  }

  // A signed 32-bit integer is stored in two's complement.
  type Int32 = i: int | -0x8000_0000 <= i < 0x8000_0000

  function I32(i: Int32): seq<Byte> {
    U32(if i < 0 then i + U32_LIMIT else i)
  }

  lemma SignedByte(i: Int32, k: nat)
    requires k < 4
    ensures I32(i)[k] == (if i < 0 then i + U32_LIMIT else i) / Pow256(k) % 256
  {
    EncodedByte(if i < 0 then i + U32_LIMIT else i, 4, k);
  }

  function Signed(x: nat): int {
    if x < 0x8000_0000 then x else x - U32_LIMIT
  }

  // ---------------------------------------------------------------- bytes at a place in memory

  ghost predicate Holds(memory: seq<Byte>, at: nat, bs: seq<Byte>) {
    at + |bs| <= |memory| && memory[at..at + |bs|] == bs
  }

  // A pointer to a serialized entry; None is a null pointer. An entry of no bytes is a null pointer
  // to whoever serialized it.
  type EntryPointer = Option<nat>

  ghost predicate Points<E>(memory: seq<Byte>, p: EntryPointer, e: E, ser: E -> seq<Byte>) {
    if ser(e) == [] then p.None? else p.Some? && Holds(memory, p.value, ser(e))
  }

  lemma HoldsFits(memory: seq<Byte>, at: nat, bs: seq<Byte>)
    requires Holds(memory, at, bs)
    ensures at + |bs| <= |memory|
  {
  }

  lemma HoldsConcat(memory: seq<Byte>, at: nat, a: seq<Byte>, b: seq<Byte>)
    ensures Holds(memory, at, a + b) <==> Holds(memory, at, a) && Holds(memory, at + |a|, b)
  {
    if at + |a| + |b| <= |memory| {
      var whole := memory[at..at + |a| + |b|];
      assert whole == memory[at..at + |a|] + memory[at + |a|..at + |a| + |b|];
      assert whole[..|a|] == memory[at..at + |a|] && whole[|a|..] == memory[at + |a|..at + |a| + |b|];
      assert (a + b)[..|a|] == a && (a + b)[|a|..] == b;
    }
  }

  function ReadU32(memory: seq<Byte>, at: nat): nat
    requires at + 4 <= |memory|
  {
    Decode(memory[at..at + 4])
  }

  function ReadI32(memory: seq<Byte>, at: nat): int
    requires at + 4 <= |memory|
  {
    Signed(ReadU32(memory, at))
  }

  function ReadU64(memory: seq<Byte>, at: nat): (a: Address)
    requires at + 8 <= |memory|
  {
    DecodeBound(memory[at..at + 8]);
    Widths();
    Decode(memory[at..at + 8])
  }

  lemma ReadsBackU32(memory: seq<Byte>, at: nat, x: nat)
    requires x < U32_LIMIT && Holds(memory, at, U32(x))
    ensures ReadU32(memory, at) == x
  {
    Widths();
    DecodeEncode(x, 4);
  }

  lemma ReadsBackI32(memory: seq<Byte>, at: nat, i: Int32)
    requires Holds(memory, at, I32(i))
    ensures ReadI32(memory, at) == i
  {
    ReadsBackU32(memory, at, if i < 0 then i + U32_LIMIT else i);
  }

  lemma ReadsBackU64(memory: seq<Byte>, at: nat, x: Address)
    requires Holds(memory, at, U64(x))
    ensures ReadU64(memory, at) == x
  {
    Widths();
    DecodeEncode(x, 8);
  }

  // ---------------------------------------------------------------- runs of blocks

  function Concat(blocks: seq<seq<Byte>>): seq<Byte> {
    if blocks == [] then [] else Concat(blocks[..|blocks| - 1]) + blocks[|blocks| - 1]
  }

  lemma ConcatSnoc(blocks: seq<seq<Byte>>, i: nat)
    requires i < |blocks|
    ensures Concat(blocks[..i + 1]) == Concat(blocks[..i]) + blocks[i]
  {
    assert blocks[..i + 1][..i] == blocks[..i];
  }

  lemma OneMore(w: nat, n: nat)
    ensures w * (n - 1) + w == w * n
  {
  }

  lemma {:induction false} ConcatFixed(blocks: seq<seq<Byte>>, w: nat)
    requires forall i :: 0 <= i < |blocks| ==> |blocks[i]| == w
    ensures |Concat(blocks)| == w * |blocks|
  {
    if blocks != [] {
      ConcatFixed(blocks[..|blocks| - 1], w);
      OneMore(w, |blocks|);
    }
  }

  lemma {:induction false} ConcatSplit(blocks: seq<seq<Byte>>, i: nat)
    requires i <= |blocks|
    ensures Concat(blocks) == Concat(blocks[..i]) + Concat(blocks[i..])
  {
    if i < |blocks| {
      var front := blocks[..|blocks| - 1];
      ConcatSplit(front, i);
      assert front[..i] == blocks[..i] && front[i..] == blocks[i..][..|blocks| - 1 - i];
    } else {
      assert blocks[..i] == blocks;
    }
  }

  // Where block i of a run stands.
  lemma HoldsBlock(memory: seq<Byte>, at: nat, blocks: seq<seq<Byte>>, i: nat)
    requires i < |blocks| && Holds(memory, at, Concat(blocks))
    ensures Holds(memory, at + |Concat(blocks[..i])|, blocks[i])
  {
    ConcatSplit(blocks, i + 1);
    ConcatSnoc(blocks, i);
    HoldsConcat(memory, at, Concat(blocks[..i + 1]), Concat(blocks[i + 1..]));
    HoldsConcat(memory, at, Concat(blocks[..i]), blocks[i]);
  }
}
