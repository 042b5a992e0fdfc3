// Decimal literals and whitespace-separated words, as a C++ string stream reads and prints them.

module Words {
  import opened Options
  import opened Unsigned

  // ---------------------------------------------------------------- decimal digits

  predicate IsDigit(c: char) {
    '0' <= c <= '9'
  }

  function Digit(d: nat): (c: char)
    requires d < 10
    ensures IsDigit(c)
  {
    (('0' as int) + d) as char
  }

  function DigitValue(c: char): (d: nat)
    requires IsDigit(c)
    ensures d < 10
  {
    (c as int) - ('0' as int)
  }

  predicate IsNumeral(s: string) {
    s != "" && forall i :: 0 <= i < |s| ==> IsDigit(s[i])
  }

  function Decimal(n: nat): (s: string)
    ensures IsNumeral(s)
  {
    if n < 10 then [Digit(n)] else Decimal(n / 10) + [Digit(n % 10)]
  }

  function NumeralValue(s: string): nat
    requires forall i :: 0 <= i < |s| ==> IsDigit(s[i])
  {
    if s == "" then 0 else 10 * NumeralValue(s[..|s| - 1]) + DigitValue(s[|s| - 1])
  }

  lemma {:induction false} DecimalReadsBack(n: nat)
    ensures NumeralValue(Decimal(n)) == n
  {
    if n < 10 {
      assert NumeralValue([Digit(n)]) == 10 * NumeralValue("") + n;
    } else {
      DecimalReadsBack(n / 10);
      assert Decimal(n)[..|Decimal(n)| - 1] == Decimal(n / 10);
    }
  }

  // The value of a numeral, digit by digit: the characters '0' to '9' stand for 0 to 9, and digits
  // further left count ten times as much.
  lemma {:induction false} NumeralIsPositional(s: string, t: string)
    requires forall i :: 0 <= i < |s| ==> IsDigit(s[i])
    requires forall i :: 0 <= i < |t| ==> IsDigit(t[i])
    ensures NumeralValue(s + t) == NumeralValue(s) * Pow10(|t|) + NumeralValue(t)
    ensures |t| == 1 ==> NumeralValue(t) == t[0] as int - 48
    decreases |t|
  {
    if t == "" {
      assert s + t == s;
    } else {
      var u, c := t[..|t| - 1], t[|t| - 1];
      assert (s + t)[..|s + t| - 1] == s + u && (s + t)[|s + t| - 1] == c;
      NumeralIsPositional(s, u);
      assert NumeralValue(s) * Pow10(|t|) == 10 * (NumeralValue(s) * Pow10(|u|));
    }
  }

  // The printed decimal is the one numeral of its value without leading zeros.
  lemma {:induction false} DecimalIsCanonical(s: string)
    requires IsNumeral(s)
    ensures (s == Decimal(NumeralValue(s))) <==> (|s| == 1 || s[0] != '0')
    ensures |s| > 1 && s[0] != '0' ==> NumeralValue(s) >= 10
  {
    var t, c := s[..|s| - 1], s[|s| - 1];
    var v := NumeralValue(s);
    if |s| == 1 {
      assert t == "" && s == [c];
    } else {
      DecimalIsCanonical(t);
      assert s == t + [c] && v == 10 * NumeralValue(t) + DigitValue(c);
      assert v / 10 == NumeralValue(t) && v % 10 == DigitValue(c);
      if s[0] == '0' {
        assert v < 10 || Decimal(v) == Decimal(v / 10) + [Digit(v % 10)];
      } else {
        assert NumeralValue(t) > 0;
      }
    }
  }

  predicate Negative(token: string) {
    token != "" && token[0] == '-'
  }

  // Arithmetic of an unsigned type: v, or what is left of -v.
  function WithSign(negative: bool, v: nat, modulus: nat): (r: nat)
    requires modulus > 0
    ensures r < modulus
  {
    Reduce(if negative then 0 - v as int else v as int, modulus)
  }

  // What a stream extracts from the whole of s as an unsigned number: an optional sign, then digits
  // alone, of a value the type can hold. minus says whether the library takes a minus sign there.
  function Extract(s: string, modulus: nat, minus: bool): (v: Option<nat>)
    requires modulus > 0
    ensures v.Some? ==> v.value < modulus
  {
    var digits := if s != "" && (s[0] == '+' || (minus && s[0] == '-')) then s[1..] else s;
    if IsNumeral(digits) && NumeralValue(digits) < modulus then
      Some(WithSign(Negative(s), NumeralValue(digits), modulus))
    else None
  }

  // A literal: an optional minus sign, which the evaluator takes off itself, then a number.
  function Literal(token: string, modulus: nat, minus: bool): (v: Option<nat>)
    requires modulus > 0
    ensures v.Some? ==> v.value < modulus
  {
    match Extract(if Negative(token) then token[1..] else token, modulus, minus)
    case None => None
    case Some(v) => Some(WithSign(Negative(token), v, modulus))
  }

  // What PushValue prints, the next pop reads back.
  lemma PrintedValueIsLiteral(v: nat, modulus: nat, minus: bool)
    requires v < modulus
    ensures Literal(Decimal(v), modulus, minus) == Some(v)
  {
    DecimalReadsBack(v);
    assert IsDigit(Decimal(v)[0]);
  }

  // ---------------------------------------------------------------- which words are numbers

  // The signs that may stand before the digits. The evaluator takes one minus off, the stream takes
  // a plus and, in some versions of the library, a minus of its own.
  predicate IsSign(sign: string, minus: bool) {
    sign == "" || sign == "-" || sign == "+" || sign == "-+" || (minus && sign == "--")
  }

  // A sign of n characters, then at least one digit and nothing but digits, of a value below the
  // modulus.
  predicate IsNumberAfter(token: string, n: nat, modulus: nat, minus: bool) {
    && n <= |token| && IsSign(token[..n], minus)
    && IsNumeral(token[n..]) && NumeralValue(token[n..]) < modulus
  }

  predicate IsNumber(token: string, modulus: nat, minus: bool) {
    exists n :: 0 <= n <= 2 && IsNumberAfter(token, n, modulus, minus)
  }

  // Two minus signs cancel.
  predicate IsNegated(sign: string) {
    sign == "-" || sign == "-+"
  }

  lemma ExtractNumeral(d: string, modulus: nat, minus: bool)
    requires modulus > 0 && IsNumeral(d) && NumeralValue(d) < modulus
    ensures Extract(d, modulus, minus) == Some(NumeralValue(d))
    ensures Extract("+" + d, modulus, minus) == Some(NumeralValue(d))
    ensures Extract("-" + d, modulus, minus) ==
            if minus then Some(WithSign(true, NumeralValue(d), modulus)) else None
  {
    assert IsDigit(d[0]);
    assert ("+" + d)[1..] == d && ("-" + d)[1..] == d;
    assert !IsDigit(("-" + d)[0]);
    hide NumeralValue;
    hide Reduce;
  }

  // What the signs before the digits make of the number.
  lemma SignsBeforeLiteral(sign: string, d: string, modulus: nat, minus: bool)
    requires modulus > 0 && IsNumeral(d) && NumeralValue(d) < modulus && IsSign(sign, minus)
    ensures
      var v := NumeralValue(d);
      Literal(sign + d, modulus, minus) == Some(if IsNegated(sign) && v > 0 then modulus - v else v)
  {
    hide Extract;
    hide WithSign;
    hide Literal;
    hide NumeralValue;
    var v := NumeralValue(d);
    ExtractNumeral(d, modulus, minus);
    WithSignNegates(v, modulus);
    LiteralAfterMinus(d, modulus, minus);
    LiteralAfterMinus("+" + d, modulus, minus);
    LiteralAfterMinus("-" + d, modulus, minus);
    LiteralWithout(d, modulus, minus);
    LiteralWithout("+" + d, modulus, minus);
    assert "" + d == d && "-+" + d == "-" + ("+" + d) && "--" + d == "-" + ("-" + d);
  }

  lemma LiteralWithout(s: string, modulus: nat, minus: bool)
    requires modulus > 0 && s != "" && s[0] != '-'
    ensures Literal(s, modulus, minus) == Extract(s, modulus, minus)
  {
    hide Extract;
  }

  lemma LiteralAfterMinus(s: string, modulus: nat, minus: bool)
    requires modulus > 0
    ensures Literal("-" + s, modulus, minus) ==
            match Extract(s, modulus, minus)
            case None => None
            case Some(v) => Some(WithSign(true, v, modulus))
  {
    hide Extract;
    hide WithSign;
    assert ("-" + s)[1..] == s;
  }

  lemma WithSignNegates(v: nat, modulus: nat)
    requires v < modulus
    ensures WithSign(true, v, modulus) == if v > 0 then modulus - v else 0
    ensures WithSign(true, WithSign(true, v, modulus), modulus) == v
  {
    hide Reduce;
    if v > 0 {
      NegativeReduces(0 - v as int, modulus);
      NegativeReduces(v as int - modulus, modulus);
    }
  }

  // A word is a literal exactly when it is written as a number.
  lemma LiteralIffNumber(token: string, modulus: nat, minus: bool)
    requires modulus > 0
    ensures Literal(token, modulus, minus).Some? <==> IsNumber(token, modulus, minus)
  {
    hide NumeralValue;
    hide WithSign;
    if Literal(token, modulus, minus).Some? {
      var n := SignOfLiteral(token, modulus, minus);
      assert IsNumberAfter(token, n, modulus, minus);
    }
    if n :| 0 <= n <= 2 && IsNumberAfter(token, n, modulus, minus) {
      SignsBeforeLiteral(token[..n], token[n..], modulus, minus);
      assert token[..n] + token[n..] == token;
    }
  }

  lemma SignOfLiteral(token: string, modulus: nat, minus: bool) returns (n: nat)
    requires modulus > 0 && Literal(token, modulus, minus).Some?
    ensures n <= 2 && IsNumberAfter(token, n, modulus, minus)
  {
    hide NumeralValue;
    hide WithSign;
    var s := if Negative(token) then token[1..] else token;
    var inner := s[0] == '+' || (minus && s[0] == '-');
    n := (if Negative(token) then 1 else 0) + (if inner then 1 else 0);
    assert token[n..] == if inner then s[1..] else s;
  }

  // A number is made of signs and digits and ends in a digit.
  lemma NumberCharacters(token: string, modulus: nat, minus: bool)
    requires modulus > 0 && Literal(token, modulus, minus).Some?
    ensures token != "" && IsDigit(token[|token| - 1])
    ensures forall i :: 0 <= i < |token| ==> IsDigit(token[i]) || token[i] == '+' || token[i] == '-'
  {
    var n := SignOfLiteral(token, modulus, minus);
    hide NumeralValue;
    hide Literal;
    var d := token[n..];
    assert token == token[..n] + d && IsDigit(d[|d| - 1]);
    assert forall i :: n <= i < |token| ==> token[i] == d[i - n];
    assert forall i :: 0 <= i < n ==> token[i] == token[..n][i];
  }

  // ---------------------------------------------------------------- words

  predicate IsSpace(c: char) {
    c == ' ' || c == '\t' || c == '\n' || c == '\r' || c == '\U{000B}' || c == '\U{000C}'
  }

  predicate IsWord(s: string) {
    s != "" && forall i :: 0 <= i < |s| ==> !IsSpace(s[i])
  }

  function WordEnd(s: string): (n: nat)
    ensures n <= |s|
    ensures forall i :: 0 <= i < n ==> !IsSpace(s[i])
    ensures n < |s| ==> IsSpace(s[n])
  {
    if s == "" || IsSpace(s[0]) then 0 else 1 + WordEnd(s[1..])
  }

  // The tokens a stream extracts from the string, one after the other.
  function Split(s: string): (words: seq<string>)
    ensures forall i :: 0 <= i < |words| ==> IsWord(words[i])
    decreases |s|
  {
    if s == "" then []
    else if IsSpace(s[0]) then Split(s[1..])
    else
      var n := WordEnd(s);
      [s[..n]] + Split(s[n..])
  }

  function Join(words: seq<string>): string {
    if words == [] then "" else words[0] + " " + Join(words[1..])
  }

  // The characters that separate words: the space and the five from tab to carriage return.
  lemma SpacesByCode(c: char)
    ensures IsSpace(c) <==> c as int == 32 || 9 <= c as int <= 13
  {
  }

  // Separators in front are skipped, however many there are.
  lemma SplitSkips(c: char, s: string)
    requires IsSpace(c)
    ensures Split([c] + s) == Split(s)
  {
    assert ([c] + s)[1..] == s;
  }

  lemma SplitLast(w: string)
    requires IsWord(w)
    ensures Split(w) == [w]
  {
    assert WordEnd(w) == |w| && w[..|w|] == w && w[|w|..] == "";
  }

  // Any separator ends a word.
  lemma SplitWord(w: string, c: char, rest: string)
    requires IsWord(w) && IsSpace(c)
    ensures Split(w + [c] + rest) == [w] + Split(rest)
  {
    var s := w + [c] + rest;
    assert s[|w|] == c && s[0] == w[0];
    assert s[..|w|] == w && s[|w|..] == [c] + rest;
    WordEndIs(s, w);
    hide WordEnd;
    hide IsWord;
    SplitSkips(c, rest);
  }

  lemma {:induction false} SplitJoin(words: seq<string>)
    requires forall i :: 0 <= i < |words| ==> IsWord(words[i])
    ensures Split(Join(words)) == words
  {
    if words != [] {
      SplitWord(words[0], ' ', Join(words[1..]));
      SplitJoin(words[1..]);
    }
  }

  lemma WordEndIs(s: string, w: string)
    requires IsWord(w) && |w| < |s| && s[..|w|] == w && IsSpace(s[|w|])
    ensures WordEnd(s) == |w|
  {
  }
}
