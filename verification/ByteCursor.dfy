// ByteCursor: reads integers of any width and byte order, and strings, from a buffer, and
// remembers for good that it has run off the end.

module ByteCursors {
  import opened Options
  import opened Unsigned
  import opened Bytes

  // ---------------------------------------------------------------- integers in a byte order

  function Reverse(bs: seq<Byte>): (r: seq<Byte>)
    ensures |r| == |bs|
  {
    if bs == [] then [] else Reverse(bs[1..]) + [bs[0]]
  }

  lemma {:induction false} ReverseTwice(bs: seq<Byte>)
    ensures Reverse(Reverse(bs)) == bs
  {
    if bs != [] {
      ReverseTwice(bs[1..]);
      ReverseSnoc(Reverse(bs[1..]), bs[0]);
    }
  }

  lemma {:induction false} ReverseSnoc(bs: seq<Byte>, b: Byte)
    ensures Reverse(bs + [b]) == [b] + Reverse(bs)
  {
    if bs == [] {
      assert bs + [b] == [b];
    } else {
      assert (bs + [b])[1..] == bs[1..] + [b];
      ReverseSnoc(bs[1..], b);
    }
  }

  lemma {:induction false} ReversedAt(bs: seq<Byte>, i: nat)
    requires i < |bs|
    ensures Reverse(bs)[i] == bs[|bs| - 1 - i]
  {
    if i < |bs| - 1 {
      ReversedAt(bs[1..], i);
    }
  }

  // x in two's complement on size bytes, in either byte order.
  function EncodeInteger(x: int, size: nat, bigEndian: bool): (bs: seq<Byte>)
    requires InRange(x, size)
    ensures |bs| == size
  {
    var bs := Encode(if x < 0 then x + Pow256(size) else x, size);
    if bigEndian then Reverse(bs) else bs
  }

  // The byte at place i holds the digit of that weight: least significant first, or, with bigEndian,
  // most significant first.
  lemma EncodedIntegerByte(x: int, size: nat, bigEndian: bool, i: nat)
    requires InRange(x, size) && i < size
    ensures
      var n := if x < 0 then x + Pow256(size) else x;
      EncodeInteger(x, size, bigEndian)[i] == n / Pow256(if bigEndian then size - 1 - i else i) % 256
  {
    var n := if x < 0 then x + Pow256(size) else x;
    EncodedByte(n, size, if bigEndian then size - 1 - i else i);
    ReversedAt(Encode(n, size), i);
  }

  // x fits size bytes as a signed or as an unsigned integer.
  predicate InRange(x: int, size: nat) {
    0 <= 2 * x + Pow256(size) && x < Pow256(size)
  }

  predicate InSignedRange(x: int, size: nat) {
    0 <= 2 * x + Pow256(size) && 2 * x < Pow256(size)
  }

  // The bit pattern of x in a type of width bytes.
  function Pattern(x: int, width: nat): int {
    if x < 0 then x + Pow256(width) else x
  }

  // What Read makes of the bytes: their value, as far as the type can hold it, or for a negative
  // number in a narrower field, the pattern with its sign bit repeated up to the width of the type.
  function Interpret(bs: seq<Byte>, bigEndian: bool, signed: bool, width: nat): int {
    var n := Decode(if bigEndian then Reverse(bs) else bs);
    if signed && |bs| < width && Pow256(|bs|) <= 2 * n then n - Pow256(|bs|) + Pow256(width)
    else Reduce(n, Pow256(width))
  }

  // Reading undoes the encoder, in both byte orders, signed and unsigned.
  lemma InterpretEncoded(x: int, size: nat, bigEndian: bool, signed: bool, width: nat)
    requires 1 <= size <= width
    requires if signed then InSignedRange(x, size) else 0 <= x < Pow256(size)
    ensures Interpret(EncodeInteger(x, size, bigEndian), bigEndian, signed, width) == Pattern(x, width)
  {
    var n := if x < 0 then x + Pow256(size) else x;
    DecodeEncode(n, size);
    ReverseTwice(Encode(n, size));
    Pow256Grows(size, width);
    hide Reduce;
  }

  // A field wider than the type, or of no bytes, reads as the number modulo the type's range.
  lemma InterpretUnsigned(x: nat, size: nat, bigEndian: bool, width: nat)
    requires x < Pow256(size)
    ensures Interpret(EncodeInteger(x, size, bigEndian), bigEndian, false, width) == Reduce(x, Pow256(width))
  {
    DecodeEncode(x, size);
    ReverseTwice(Encode(x, size));
  }

  // ---------------------------------------------------------------- bits

  function BitXor(x: nat, y: nat): nat {
    if x == 0 then y else if y == 0 then x
    else 2 * BitXor(x / 2, y / 2) + (if x % 2 != y % 2 then 1 else 0)
  }

  // Turning over the top bit of x.
  lemma {:induction false} XorTopBit(x: nat, k: nat)
    requires x < 2 * Pow2(k)
    ensures BitXor(x, Pow2(k)) == if x < Pow2(k) then x + Pow2(k) else x - Pow2(k)
  {
    if k > 0 && x > 0 {
      XorTopBit(x / 2, k - 1);
    }
  }

  lemma {:induction false} Pow2IsPow256(size: nat)
    requires size > 0
    ensures 2 * Pow2(8 * size - 1) == Pow256(size)
  {
    var k := 8 * size - 1;
    assert Pow2(k) == 2 * Pow2(k - 1) && Pow2(k - 1) == 2 * Pow2(k - 2) && Pow2(k - 2) == 2 * Pow2(k - 3)
           && Pow2(k - 3) == 2 * Pow2(k - 4) && Pow2(k - 4) == 2 * Pow2(k - 5) && Pow2(k - 5) == 2 * Pow2(k - 6)
           && Pow2(k - 6) == 2 * Pow2(k - 7);
    if size == 1 {
      assert Pow256(1) == 256 && Pow2(0) == 1;
    } else {
      assert k - 7 == 8 * (size - 1);
      assert Pow2(8 * (size - 1)) == 2 * Pow2(8 * (size - 1) - 1);
      Pow2IsPow256(size - 1);
    }
  }

  lemma {:induction false} DecodeSnoc(bs: seq<Byte>, b: Byte)
    ensures Decode([b] + bs) == b + 256 * Decode(bs)
  {
  }

  lemma {:induction false} Pow256Grows(a: nat, b: nat)
    requires a <= b
    ensures Pow256(a) <= Pow256(b)
  {
    if a < b {
      Pow256Grows(a, b - 1);
    }
  }

  // Exclusive-or with the sign bit, then subtracting it, repeats the sign up to the type's width.
  lemma SignExtends(n: nat, size: nat, width: nat)
    requires 1 <= size < width && n < Pow256(size)
    ensures
      var signBit := Pow2(size * 8 - 1);
      Reduce(BitXor(n, signBit) - signBit, Pow256(width)) ==
      if Pow256(size) <= 2 * n then n - Pow256(size) + Pow256(width) else n
  {
    hide Reduce;
    Pow2IsPow256(size);
    XorTopBit(n, size * 8 - 1);
    Pow256Grows(size, width);
    hide Pow256;
    hide Pow2;
    hide BitXor;
    if Pow256(size) <= 2 * n {
      NegativeReduces(n - Pow256(size), Pow256(width));
    }
  }

  // ---------------------------------------------------------------- the cursor

  class ByteCursor {
    const buffer_: seq<Byte>
    var here_: nat
    var big_endian_: bool
    var complete_: bool

    ghost predicate Valid()
      reads this
    {
      here_ <= |buffer_|
    }

    constructor (buffer: seq<Byte>, bigEndian: bool)
      ensures Valid() && buffer_ == buffer && here_ == 0 && big_endian_ == bigEndian && complete_
    {
      buffer_ := buffer;
      here_ := 0;
      big_endian_ := bigEndian;
      complete_ := true;
    }

    function Available(): nat
      requires Valid()
      reads this
    {
      |buffer_| - here_
    }

    // Without enough bytes the cursor goes to the end of the buffer and the failure is kept.
    method CheckAvailable(size: nat) returns (ok: bool)
      requires Valid()
      modifies `here_, `complete_
      ensures Valid() && ok == (size <= old(Available()))
      ensures if ok then here_ == old(here_) && complete_ == old(complete_) else here_ == |buffer_| && !complete_
    {
      if Available() >= size {
        return true;
      }
      here_ := |buffer_|;
      complete_ := false;
      return false;
    }

    // Reads an integer of size bytes into a type of width bytes; result is its bit pattern. A signed
    // integer has at least one byte.
    method Read(size: nat, isSigned: bool, width: nat) returns (result: int)
      requires Valid() && 1 <= width <= 8 && (isSigned ==> 1 <= size)
      modifies `here_, `complete_
      ensures Valid() && (complete_ ==> old(complete_))
      ensures
        if size <= old(Available()) then
          && here_ == old(here_) + size && complete_ == old(complete_)
          && result == Interpret(buffer_[old(here_)..old(here_) + size], big_endian_, isSigned, width)
        else here_ == |buffer_| && !complete_ && result == Reduce(0xdeadbeef, Pow256(width))
    {
      var ok := CheckAvailable(size);
      if !ok {
        return Reduce(0xdeadbeef, Pow256(width));
      }
      var bytes := buffer_[here_..here_ + size];
      hide BitXor;
      hide Reverse;
      hide Decode;
      hide Pow2;
      hide Pow256;
      hide Reduce;
      var v := Accumulate(bytes, width);
      FitsNarrow(bytes, width);
      if isSigned && size < width {
        var signBit := Pow2(size * 8 - 1);
        SignExtends(v, size, width);
        v := Reduce(BitXor(v, signBit) - signBit, Pow256(width));
      }
      here_ := here_ + size;
      result := v;
    }

    // The loops over the bytes, from the most significant to the least.
    method Accumulate(bytes: seq<Byte>, width: nat) returns (v: nat)
      ensures v == Reduce(Decode(if big_endian_ then Reverse(bytes) else bytes), Pow256(width))
    {
      v := 0;
      var size := |bytes|;
      assert Reduce(Decode([]), Pow256(width)) == 0 && Reverse([]) == [];
      hide Decode;
      hide Reverse;
      hide Reduce;
      hide Pow256;
      if big_endian_ {
        assert bytes[..0] == [];
        var i: nat := 0;
        while i < size
          invariant i <= size && v == Reduce(Decode(Reverse(bytes[..i])), Pow256(width))
        {
          AccumulateOne(Reverse(bytes[..i]), bytes[i], width);
          assert bytes[..i + 1] == bytes[..i] + [bytes[i]];
          ReverseSnoc(bytes[..i], bytes[i]);
          v := Reduce(v * 256 + bytes[i], Pow256(width));
          i := i + 1;
        }
        assert bytes[..size] == bytes;
      } else {
        var i: nat := size;
        assert bytes[size..] == [];
        while i > 0
          invariant i <= size && v == Reduce(Decode(bytes[i..]), Pow256(width))
        {
          i := i - 1;
          AccumulateOne(bytes[i + 1..], bytes[i], width);
          assert bytes[i..] == [bytes[i]] + bytes[i + 1..];
          v := Reduce(v * 256 + bytes[i], Pow256(width));
        }
        assert bytes[0..] == bytes;
      }
    }

    lemma AccumulateOne(bs: seq<Byte>, b: Byte, width: nat)
      ensures Reduce(Decode([b] + bs), Pow256(width)) ==
              Reduce(Reduce(Decode(bs), Pow256(width)) * 256 + b, Pow256(width))
    {
      DecodeSnoc(bs, b);
      ReduceInside(Decode(bs), b, Pow256(width));
    }

    lemma FitsNarrow(bytes: seq<Byte>, width: nat)
      ensures
        var n := Decode(if big_endian_ then Reverse(bytes) else bytes);
        n < Pow256(|bytes|) && (|bytes| <= width ==> Reduce(n, Pow256(width)) == n)
    {
      DecodeBound(if big_endian_ then Reverse(bytes) else bytes);
      if |bytes| <= width {
        Pow256Grows(|bytes|, width);
      }
    }

    method Skip(size: nat)
      requires Valid()
      modifies `here_, `complete_
      ensures Valid() && (complete_ ==> old(complete_))
      ensures if size <= old(Available()) then here_ == old(here_) + size && complete_ == old(complete_)
              else here_ == |buffer_| && !complete_
    {
      var ok := CheckAvailable(size);
      if ok {
        here_ := here_ + size;
      }
    }

    // memchr: the distance to the first zero among the next n bytes.
    method FindZero(n: nat) returns (at: Option<nat>)
      requires Valid() && n <= Available()
      ensures at.Some? ==> at.value < n && buffer_[here_ + at.value] == 0 && 0 !in buffer_[here_..here_ + at.value]
      ensures at.None? ==> 0 !in buffer_[here_..here_ + n]
    {
      var i := 0;
      while i < n
        invariant i <= n && 0 !in buffer_[here_..here_ + i]
      {
        if buffer_[here_ + i] == 0 {
          return Some(i);
        }
        assert buffer_[here_..here_ + i + 1] == buffer_[here_..here_ + i] + [buffer_[here_ + i]];
        i := i + 1;
      }
      return None;
    }

    // The string up to the next zero, and past it; with no zero left, the failure is kept.
    method CString() returns (str: seq<Byte>)
      requires Valid()
      modifies `here_, `complete_
      ensures Valid() && (complete_ ==> old(complete_)) && 0 !in str
      ensures
        if 0 in buffer_[old(here_)..] then
          && complete_ == old(complete_) && here_ == old(here_) + |str| + 1 <= |buffer_|
          && buffer_[old(here_)..here_] == str + [0]
        else here_ == |buffer_| && !complete_ && str == []
    {
      var end := FindZero(Available());
      assert buffer_[here_..] == buffer_[here_..here_ + Available()];
      match end {
        case Some(n) =>
          str := buffer_[here_..here_ + n];
          assert buffer_[here_..][n] == 0;
          here_ := here_ + n + 1;
        case None =>
          str := [];
          here_ := |buffer_|;
          complete_ := false;
      }
    }

    // The string in a field of limit bytes, which need not hold a zero.
    method CStringField(limit: nat) returns (str: seq<Byte>)
      requires Valid()
      modifies `here_, `complete_
      ensures Valid() && (complete_ ==> old(complete_)) && 0 !in str
      ensures
        if limit <= old(Available()) then
          && complete_ == old(complete_) && here_ == old(here_) + limit && |str| <= limit
          && str == buffer_[old(here_)..old(here_) + |str|]
          && (|str| < limit ==> buffer_[old(here_) + |str|] == 0)
        else here_ == |buffer_| && !complete_ && str == []
    {
      var ok := CheckAvailable(limit);
      if !ok {
        return [];
      }
      var end := FindZero(limit);
      str := buffer_[here_..here_ + if end.Some? then end.value else limit];
      here_ := here_ + limit;
    }
  }
}
