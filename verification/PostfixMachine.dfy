// The stack machine of PostfixEvaluator, one token at a time, and what every run of it keeps.

module PostfixMachine {
  import opened Options
  import opened Unsigned
  import opened Words

  // The value type's range; whether the library's extractor takes a minus sign before an unsigned
  // number (libstdc++ 6.0.13 does, 6.0.9 does not); and the memory region, if there is one. Reading
  // memory may fail.
  datatype Env = Env(width: nat, minus: bool, memory: Option<nat -> Option<nat>>) {
    function Modulus(): (m: nat)
      ensures m > 0
    {
      Pow2(width)
    }
  }

  // marked is the map named "assigned" there: the keys set so far. Every value is below the modulus.
  datatype State = State(dictionary: map<string, nat>, stack: seq<string>, marked: map<string, bool>)

  ghost predicate Typed(env: Env, dictionary: map<string, nat>) {
    forall k :: k in dictionary ==> dictionary[k] < env.Modulus()
  }

  // Undefined stands for what C++ leaves undefined: dividing by zero, and the store through a null
  // pointer when the target of an assignment is a negative literal.
  datatype Outcome = Done | Failed | Undefined

  datatype Result = Result(outcome: Outcome, state: State)

  // ---------------------------------------------------------------- popping

  datatype PopResult = PopFail | PopValue(value: nat) | PopIdentifier(name: string)

  function TopOf(env: Env, stack: seq<string>): PopResult {
    if stack == [] then PopFail
    else
      var token := stack[|stack| - 1];
      match Literal(token, env.Modulus(), env.minus)
      case Some(v) => PopValue(v)
      case None => PopIdentifier(token)
  }

  function Rest(stack: seq<string>): seq<string> {
    if stack == [] then [] else stack[..|stack| - 1]
  }

  // The value a stack entry stands for. Identifiers are looked up only now.
  function ValueOf(env: Env, dictionary: map<string, nat>, stack: seq<string>): Option<nat> {
    match TopOf(env, stack)
    case PopFail => None
    case PopValue(v) => Some(v)
    case PopIdentifier(x) => if x in dictionary then Some(dictionary[x]) else None
  }

  // ---------------------------------------------------------------- operations

  datatype Operator = Add | Subtract | Multiply | Quotient | Modulo | Align

  function OperatorOf(token: string): Option<Operator> {
    if token == "+" then Some(Add)
    else if token == "-" then Some(Subtract)
    else if token == "*" then Some(Multiply)
    else if token == "/" then Some(Quotient)
    else if token == "%" then Some(Modulo)
    else if token == "@" then Some(Align)
    else None
  }

  function OperatorToken(op: Operator): string {
    match op
    case Add => "+"
    case Subtract => "-"
    case Multiply => "*"
    case Quotient => "/"
    case Modulo => "%"
    case Align => "@"
  }

  function BitAnd(x: nat, y: nat): nat {
    if x == 0 || y == 0 then 0
    else 2 * BitAnd(x / 2, y / 2) + (if x % 2 == 1 && y % 2 == 1 then 1 else 0)
  }

  // All ones, exclusive-or x: the bits of x turned over.
  function Complement(x: nat, modulus: nat): nat
    requires x < modulus
  {
    modulus - 1 - x
  }

  predicate Divides(op: Operator) {
    op == Quotient || op == Modulo
  }

  function Apply(env: Env, op: Operator, a: nat, b: nat): (r: nat)
    requires !(Divides(op) && b == 0)
    ensures r < env.Modulus()
  {
    var m := env.Modulus();
    match op
    case Add => Reduce(a + b, m)
    case Subtract => Reduce(a - b, m)
    case Multiply => Reduce(a * b, m)
    case Quotient => Reduce(a / b, m)
    case Modulo => Reduce(a % b, m)
    case Align => Reduce(BitAnd(a, Complement(Reduce(b - 1, m), m)), m)
  }

  // ---------------------------------------------------------------- one token

  function Push(st: State, token: string): State {
    st.(stack := st.stack + [token])
  }

  function Operate(env: Env, op: Operator, st: State): Result {
    var below := Rest(st.stack);
    var b := ValueOf(env, st.dictionary, st.stack);
    if b.None? then Result(Failed, st.(stack := below))
    else
      var a := ValueOf(env, st.dictionary, below);
      var popped := st.(stack := Rest(below));
      if a.None? then Result(Failed, popped)
      else if Divides(op) && b.value == 0 then Result(Undefined, popped)
      else Result(Done, Push(popped, Decimal(Apply(env, op, a.value, b.value))))
  }

  function Dereference(env: Env, st: State): Result {
    if env.memory.None? then Result(Failed, st)
    else
      var popped := st.(stack := Rest(st.stack));
      match ValueOf(env, st.dictionary, st.stack)
      case None => Result(Failed, popped)
      case Some(address) =>
        match env.memory.value(address)
        case None => Result(Failed, popped)
        case Some(v) => Result(Done, Push(popped, Decimal(Reduce(v, env.Modulus()))))
  }

  predicate IsVariable(x: string) {
    x != "" && x[0] == '$'
  }

  lemma VariablesStartWithDollar(x: string)
    ensures IsVariable(x) <==> exists name :: x == "$" + name
  {
    if IsVariable(x) {
      assert x == "$" + x[1..];
    }
  }

  function Assign(env: Env, st: State): Result {
    var below := Rest(st.stack);
    match ValueOf(env, st.dictionary, st.stack)
    case None => Result(Failed, st.(stack := below))
    case Some(v) =>
      var popped := st.(stack := Rest(below));
      match TopOf(env, below)
      case PopFail => Result(Failed, popped)
      case PopValue(_) => Result(if Negative(below[|below| - 1]) then Undefined else Failed, popped)
      case PopIdentifier(x) =>
        if IsVariable(x) then
          Result(Done, popped.(dictionary := st.dictionary[x := v], marked := st.marked[x := true]))
        else Result(Failed, popped)
  }

  function Step(env: Env, token: string, st: State): Result {
    match OperatorOf(token)
    case Some(op) => Operate(env, op, st)
    case None =>
      if token == "^" then Dereference(env, st)
      else if token == "=" then Assign(env, st)
      else Result(Done, Push(st, token))
  }

  // A word that is pushed as it is.
  predicate IsPushed(x: string) {
    x != "+" && x != "-" && x != "*" && x != "/" && x != "%" && x != "@" && x != "^" && x != "="
  }

  function Run(env: Env, tokens: seq<string>, st: State): Result {
    if tokens == [] then Result(Done, st)
    else
      var r := Step(env, tokens[0], st);
      if r.outcome.Done? then Run(env, tokens[1..], r.state) else r
  }

  // An assignment sign written against the next token is split off, once.
  function Unglue(words: seq<string>): seq<string> {
    if words == [] then []
    else
      (if |words[0]| > 1 && words[0][0] == '=' then ["=", words[0][1..]] else [words[0]]) + Unglue(words[1..])
  }

  // "=x" becomes "=" and "x", "==x" becomes "=" and "=x", and any other word stays as it is.
  lemma UnglueSplitsOnce(w: string, rest: seq<string>)
    ensures w != "" ==> Unglue(["=" + w] + rest) == ["=", w] + Unglue(rest)
    ensures w == "" || w == "=" || w[0] != '=' ==> Unglue([w] + rest) == [w] + Unglue(rest)
  {
    assert (["=" + w] + rest)[1..] == rest && ("=" + w)[1..] == w && ([w] + rest)[1..] == rest;
  }

  lemma {:induction false} RunConcat(env: Env, s: seq<string>, t: seq<string>, st: State)
    ensures Run(env, s + t, st) ==
            var r := Run(env, s, st); if r.outcome.Done? then Run(env, t, r.state) else r
  {
    if s == [] {
      assert s + t == t;
    } else {
      assert (s + t)[1..] == s[1..] + t;
      var r := Step(env, s[0], st);
      if r.outcome.Done? {
        RunConcat(env, s[1..], t, r.state);
      }
    }
  }

  // ---------------------------------------------------------------- what every run keeps

  // The key one token writes: the target of an assignment that completes.
  ghost function WrittenBy(env: Env, token: string, st: State): set<string> {
    if OperatorOf(token).None? && token == "=" && Step(env, token, st).outcome.Done?
    then {TopOf(env, Rest(st.stack)).name} else {}
  }

  ghost function Written(env: Env, tokens: seq<string>, st: State): set<string> {
    if tokens == [] then {}
    else
      var r := Step(env, tokens[0], st);
      WrittenBy(env, tokens[0], st) + if r.outcome.Done? then Written(env, tokens[1..], r.state) else {}
  }

  // The keys of w are variables, they are exactly those added to or changed in the dictionary and
  // marked, and every other entry is as it was.
  ghost predicate WroteOnly(w: set<string>, st: State, end: State) {
    && (forall k :: k in w ==> k != "" && k[0] == '$')
    && end.dictionary.Keys == st.dictionary.Keys + w
    && end.marked.Keys == st.marked.Keys + w
    && (forall k :: k in w ==> end.marked[k])
    && (forall k :: k in st.dictionary && k !in w ==> end.dictionary[k] == st.dictionary[k])
    && (forall k :: k in st.marked && k !in w ==> end.marked[k] == st.marked[k])
  }

  lemma StepWritesOnly(env: Env, token: string, st: State)
    ensures WroteOnly(WrittenBy(env, token, st), st, Step(env, token, st).state)
  {
    hide Apply;
    hide Decimal;
    hide Literal;
    hide Reduce;
  }

  lemma WritesAddUp(v: set<string>, w: set<string>, st: State, middle: State, end: State)
    requires WroteOnly(v, st, middle) && WroteOnly(w, middle, end)
    ensures WroteOnly(v + w, st, end)
  {
  }

  // However a run ends, constants are as they were and the marks say exactly what was written.
  lemma {:induction false} RunWritesOnlyVariables(env: Env, tokens: seq<string>, st: State)
    ensures WroteOnly(Written(env, tokens, st), st, Run(env, tokens, st).state)
  {
    hide WroteOnly;
    hide Step;
    hide WrittenBy;
    if tokens == [] {
      NothingWritten(st);
    } else {
      var r := Step(env, tokens[0], st);
      StepWritesOnly(env, tokens[0], st);
      if r.outcome.Done? {
        RunWritesOnlyVariables(env, tokens[1..], r.state);
        WritesAddUp(WrittenBy(env, tokens[0], st), Written(env, tokens[1..], r.state), st, r.state,
                    Run(env, tokens[1..], r.state).state);
      } else {
        assert WrittenBy(env, tokens[0], st) + {} == WrittenBy(env, tokens[0], st);
      }
    }
  }

  lemma NothingWritten(st: State)
    ensures WroteOnly({}, st, st)
  {
  }

  // ---------------------------------------------------------------- what the operators compute

  predicate Bit(x: nat, i: nat) {
    if i == 0 then x % 2 == 1 else Bit(x / 2, i - 1)
  }

  lemma {:induction false} BitOfAnd(x: nat, y: nat, i: nat)
    ensures Bit(BitAnd(x, y), i) <==> Bit(x, i) && Bit(y, i)
    ensures BitAnd(x, y) <= x
    decreases x
  {
    if x == 0 || y == 0 {
      NoBit(i);
    } else {
      BitOfAnd(x / 2, y / 2, if i == 0 then 0 else i - 1);
    }
  }

  lemma {:induction false} NoBit(i: nat)
    ensures !Bit(0, i)
  {
    if i > 0 {
      NoBit(i - 1);
    }
  }

  lemma {:induction false} BitOfComplement(x: nat, w: nat, i: nat)
    requires x < Pow2(w) && i < w
    ensures Bit(Complement(x, Pow2(w)), i) <==> !Bit(x, i)
  {
    assert Complement(x, Pow2(w)) / 2 == Complement(x / 2, Pow2(w - 1));
    if i > 0 {
      BitOfComplement(x / 2, w - 1, i - 1);
    }
  }

  // The number before b, in the value type.
  predicate IsBefore(c: nat, b: nat, modulus: nat) {
    c + 1 == b || (b == 0 && c + 1 == modulus)
  }

  ghost predicate IsProduct(a: nat, b: nat, v: nat, m: nat) {
    exists q: nat :: a * b == q * m + v
  }

  ghost predicate IsRemainder(a: nat, b: nat, v: nat) {
    v < b && exists q: nat :: a == q * b + v
  }

  // Alignment keeps the bits of a that are not set in the number before b.
  ghost predicate IsMasked(a: nat, b: nat, v: nat, width: nat) {
    exists c: nat :: IsBefore(c, b, Pow2(width)) && KeepsUnset(a, c, v, width)
  }

  ghost predicate KeepsUnset(a: nat, c: nat, v: nat, width: nat) {
    forall i: nat :: i < width ==> (Bit(v, i) <==> Bit(a, i) && !Bit(c, i))
  }

  // v is what the operator written as this token makes of a and b.
  ghost predicate Computes(env: Env, token: string, a: nat, b: nat, v: nat) {
    var m := env.Modulus();
    && v < m
    && (token == "+" ==> v == a + b || v + m == a + b)
    && (token == "-" ==> v + b == a || v + b == a + m)
    && (token == "*" ==> IsProduct(a, b, v, m))
    && (token == "/" ==> v * b <= a < v * b + b)
    && (token == "%" ==> IsRemainder(a, b, v))
    && (token == "@" ==> IsMasked(a, b, v, env.width))
  }

  lemma ReduceSum(a: nat, b: nat, m: nat)
    requires a < m && b < m
    ensures Reduce(a + b, m) == if a + b < m then a + b else a + b - m
    ensures Reduce(a - b, m) == if b <= a then a - b else a - b + m
  {
    if m <= a + b {
      RemainderIs(a + b, 1, m, a + b - m);
    }
    if a < b {
      NegativeReduces(a - b, m);
    }
  }

  lemma ProductIsProduct(a: nat, b: nat, m: nat)
    requires m > 0
    ensures IsProduct(a, b, Reduce(a * b, m), m)
  {
    var q := ReduceIsCongruent(a * b, m);
    assert q >= 0;
  }

  lemma QuotientAndRest(a: nat, b: nat)
    requires b > 0
    ensures a / b <= a && a / b * b <= a < a / b * b + b
    ensures IsRemainder(a, b, a % b) && a % b <= a
  {
    DivisionLaw(a, b);
    TimesAtLeastOne(a / b, b);
  }

  lemma AlignMasksBits(env: Env, a: nat, b: nat)
    requires a < env.Modulus() && b < env.Modulus()
    ensures IsMasked(a, b, Apply(env, Align, a, b), env.width)
  {
    var m := env.Modulus();
    var c := Reduce(b - 1, m);
    ReduceSum(b, 1 % m, m);
    if b == 0 {
      NegativeReduces(-1, m);
    }
    var mask := Complement(c, m);
    BitOfAnd(a, mask, 0);
    assert Apply(env, Align, a, b) == BitAnd(a, mask);
    forall i: nat | i < env.width ensures Bit(BitAnd(a, mask), i) <==> Bit(a, i) && !Bit(c, i) {
      BitOfAnd(a, mask, i);
      BitOfComplement(c, env.width, i);
    }
    assert IsBefore(c, b, m) && KeepsUnset(a, c, BitAnd(a, mask), env.width);
  }

  lemma ApplyComputes(env: Env, op: Operator, a: nat, b: nat)
    requires a < env.Modulus() && b < env.Modulus() && !(Divides(op) && b == 0)
    ensures Computes(env, OperatorToken(op), a, b, Apply(env, op, a, b))
  {
    hide IsProduct;
    hide IsRemainder;
    hide IsMasked;
    hide BitAnd;
    hide Complement;
    hide Reduce;
    hide Pow2;
    match op
    case Add => ReduceSum(a, b, env.Modulus());
    case Subtract => ReduceSum(a, b, env.Modulus());
    case Multiply => ProductIsProduct(a, b, env.Modulus());
    case Quotient => QuotientAndRest(a, b);
    case Modulo => QuotientAndRest(a, b);
    case Align => AlignMasksBits(env, a, b);
  }

  // An operator pops the right operand, then the left one, and pushes what it computes. It fails
  // exactly when one of them has no value, and is undefined exactly when it divides by zero.
  lemma OperatorComputes(env: Env, token: string, st: State) returns (v: nat)
    requires token in ["+", "-", "*", "/", "%", "@"] && Typed(env, st.dictionary)
    ensures
      var r := Step(env, token, st);
      var a, b := ValueOf(env, st.dictionary, Rest(st.stack)), ValueOf(env, st.dictionary, st.stack);
      if a.None? || b.None? then r.outcome == Failed
      else if b.value == 0 && (token == "/" || token == "%") then r.outcome == Undefined
      else
        && r == Result(Done, st.(stack := Rest(Rest(st.stack)) + [Decimal(v)]))
        && Computes(env, token, a.value, b.value, v)
  {
    hide Apply;
    hide Computes;
    hide Literal;
    hide Decimal;
    hide Rest;
    hide Pow2;
    v := 0;
    var op := OperatorOf(token).value;
    var a, b := ValueOf(env, st.dictionary, Rest(st.stack)), ValueOf(env, st.dictionary, st.stack);
    if a.Some? && b.Some? && !(Divides(op) && b.value == 0) {
      v := Apply(env, op, a.value, b.value);
      ApplyComputes(env, op, a.value, b.value);
    }
  }

  lemma PushedStep(env: Env, token: string, st: State)
    ensures IsPushed(token) ==> Step(env, token, st) == Result(Done, Push(st, token))
  {
  }

  // ---------------------------------------------------------------- when a run is left undefined

  predicate NegativeLiteral(env: Env, token: string) {
    Negative(token) && Literal(token, env.Modulus(), env.minus).Some?
  }

  // Assignment is left undefined exactly when there is a value to assign and the entry below it is
  // a negative literal; any other literal there makes it fail.
  lemma AssignUndefinedExactly(env: Env, st: State)
    ensures Step(env, "=", st).outcome == Undefined <==>
            && |st.stack| >= 2
            && ValueOf(env, st.dictionary, st.stack).Some?
            && NegativeLiteral(env, st.stack[|st.stack| - 2])
  {
    hide Literal;
  }

  // Words that cannot lead anywhere undefined, whatever the dictionary and the memory hold.
  ghost predicate Harmless(env: Env, tokens: seq<string>) {
    forall t :: t in tokens ==> !NegativeLiteral(env, t) && t != "/" && t != "%"
  }

  ghost predicate NoNegative(env: Env, stack: seq<string>) {
    forall t :: t in stack ==> !NegativeLiteral(env, t)
  }

  lemma PushedIsNotNegative(env: Env, stack: seq<string>, v: nat)
    requires NoNegative(env, stack)
    ensures NoNegative(env, stack + [Decimal(v)])
  {
    assert IsDigit(Decimal(v)[0]);
    hide Decimal;
    hide Literal;
  }

  lemma RestHasNoNegative(env: Env, stack: seq<string>)
    requires NoNegative(env, stack)
    ensures NoNegative(env, Rest(stack)) && (stack != [] ==> !NegativeLiteral(env, stack[|stack| - 1]))
  {
    hide NegativeLiteral;
  }

  lemma OperateKeepsNoNegative(env: Env, op: Operator, st: State)
    requires !Divides(op) && NoNegative(env, st.stack)
    ensures var r := Operate(env, op, st); r.outcome != Undefined && NoNegative(env, r.state.stack)
  {
    var below := Rest(st.stack);
    RestHasNoNegative(env, st.stack);
    RestHasNoNegative(env, below);
    hide NoNegative;
    hide Decimal;
    hide ValueOf;
    hide Rest;
    var b, a := ValueOf(env, st.dictionary, st.stack), ValueOf(env, st.dictionary, below);
    if a.Some? && b.Some? {
      PushedIsNotNegative(env, Rest(below), Apply(env, op, a.value, b.value));
      hide Apply;
    }
  }

  lemma DereferenceKeepsNoNegative(env: Env, st: State)
    requires NoNegative(env, st.stack)
    ensures var r := Dereference(env, st); r.outcome != Undefined && NoNegative(env, r.state.stack)
  {
    RestHasNoNegative(env, st.stack);
    hide NoNegative;
    hide Decimal;
    hide ValueOf;
    hide Rest;
    var r := Dereference(env, st);
    if r.outcome.Done? {
      var v := env.memory.value(ValueOf(env, st.dictionary, st.stack).value).value;
      PushedIsNotNegative(env, Rest(st.stack), Reduce(v, env.Modulus()));
    }
  }

  lemma AssignKeepsNoNegative(env: Env, st: State)
    requires NoNegative(env, st.stack)
    ensures var r := Assign(env, st); r.outcome != Undefined && NoNegative(env, r.state.stack)
  {
    RestHasNoNegative(env, st.stack);
    RestHasNoNegative(env, Rest(st.stack));
    hide NoNegative;
    hide ValueOf;
    hide Literal;
  }

  lemma StepKeepsNoNegative(env: Env, token: string, st: State)
    requires !NegativeLiteral(env, token) && token != "/" && token != "%" && NoNegative(env, st.stack)
    ensures var r := Step(env, token, st); r.outcome != Undefined && NoNegative(env, r.state.stack)
  {
    DereferenceKeepsNoNegative(env, st);
    AssignKeepsNoNegative(env, st);
    assert NoNegative(env, st.stack + [token]);
    hide NoNegative;
    hide Operate;
    hide Dereference;
    hide Assign;
    if OperatorOf(token).Some? {
      OperateKeepsNoNegative(env, OperatorOf(token).value, st);
    }
  }

  // Without division and without negative literals no run is undefined.
  lemma {:induction false} HarmlessRunIsDefined(env: Env, tokens: seq<string>, st: State)
    requires Harmless(env, tokens) && NoNegative(env, st.stack)
    ensures Run(env, tokens, st).outcome != Undefined
  {
    hide Step;
    hide NoNegative;
    hide NegativeLiteral;
    if tokens != [] {
      assert tokens[0] in tokens && forall t :: t in tokens[1..] ==> t in tokens;
      StepKeepsNoNegative(env, tokens[0], st);
      if Step(env, tokens[0], st).outcome.Done? {
        HarmlessRunIsDefined(env, tokens[1..], Step(env, tokens[0], st).state);
      }
    }
  }

  lemma RunThree(env: Env, a: string, b: string, st: State)
    requires IsPushed(a) && IsPushed(b)
    ensures Run(env, [a, b, "="], st).outcome == Assign(env, Push(Push(st, a), b)).outcome
  {
    hide IsPushed;
    hide Step;
    hide Assign;
    var s1, s2 := Push(st, a), Push(Push(st, a), b);
    PushedStep(env, a, st);
    PushedStep(env, b, s1);
    AssignStep(env, s2);
    assert [a, b, "="][1..] == [b, "="] && [b, "="][1..] == ["="] && ["="][1..] == [];
    assert Run(env, ["="], s2).outcome == Step(env, "=", s2).outcome;
  }

  lemma AssignStep(env: Env, st: State)
    ensures Step(env, "=", st) == Assign(env, st)
  {
  }

  lemma LiteralPops(env: Env, dictionary: map<string, nat>, stack: seq<string>, token: string)
    requires Literal(token, env.Modulus(), env.minus).Some?
    ensures TopOf(env, stack + [token]).PopValue? && ValueOf(env, dictionary, stack + [token]).Some?
    ensures Rest(stack + [token]) == stack
  {
    hide Literal;
  }

  // The program string that assigns one literal to another.
  lemma AssignToLiteral(env: Env, a: string, b: string, st: State)
    requires Literal(a, env.Modulus(), env.minus).Some? && Literal(b, env.Modulus(), env.minus).Some?
    ensures Run(env, [a, b, "="], st).outcome == if Negative(a) then Undefined else Failed
  {
    hide Literal;
    hide Run;
    hide OperatorOf;
    hide Pow2;
    hide ValueOf;
    hide TopOf;
    hide Rest;
    LiteralIsPushed(env, a);
    LiteralIsPushed(env, b);
    RunThree(env, a, b, st);
    LiteralPops(env, st.dictionary, st.stack, a);
    LiteralPops(env, st.dictionary, st.stack + [a], b);
  }

  lemma LiteralIsPushed(env: Env, a: string)
    requires Literal(a, env.Modulus(), env.minus).Some?
    ensures IsPushed(a)
  {
    NumberCharacters(a, env.Modulus(), env.minus);
    hide Literal;
  }

  // "-5 3 =", "-+5 3 =" and "5 3 =".
  lemma NegativeTargetIsUndefined(env: Env, st: State)
    requires env.Modulus() > 5
    ensures Run(env, ["-5", "3", "="], st).outcome == Undefined
    ensures Run(env, ["-+5", "3", "="], st).outcome == Undefined
    ensures Run(env, ["5", "3", "="], st).outcome == Failed
  {
    hide Run;
    assert Decimal(5) == "5" && Decimal(3) == "3";
    DecimalReadsBack(5);
    SignsBeforeLiteral("-", "5", env.Modulus(), env.minus);
    SignsBeforeLiteral("-+", "5", env.Modulus(), env.minus);
    PrintedValueIsLiteral(5, env.Modulus(), env.minus);
    PrintedValueIsLiteral(3, env.Modulus(), env.minus);
    hide Literal;
    assert "-" + "5" == "-5" && "-+" + "5" == "-+5";
    AssignToLiteral(env, "-5", "3", st);
    AssignToLiteral(env, "-+5", "3", st);
    AssignToLiteral(env, "5", "3", st);
  }
}
