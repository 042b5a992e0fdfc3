// Programs of assignments, their meaning, and the program strings they are written as. Evaluating
// the string does what the program means.

module PostfixCompiler {
  import opened Options
  import opened Unsigned
  import opened Words
  import opened PostfixMachine
  import opened PostfixEvaluators

  datatype Expr =
    | Constant(negative: bool, magnitude: nat)
    | Name(name: string)
    | Binary(op: Operator, left: Expr, right: Expr)
    | Deref(address: Expr)

  datatype Stmt = Stmt(target: string, value: Expr)

  // ---------------------------------------------------------------- meaning

  function Eval(env: Env, dictionary: map<string, nat>, e: Expr): Option<nat> {
    match e
    case Constant(negative, n) => Some(Reduce(if negative then 0 - n as int else n as int, env.Modulus()))
    case Name(x) => if x in dictionary then Some(dictionary[x]) else None
    case Binary(op, l, r) =>
      var a, b := Eval(env, dictionary, l), Eval(env, dictionary, r);
      if a.None? || b.None? || (Divides(op) && b.value == 0) then None else Some(Apply(env, op, a.value, b.value))
    case Deref(address) =>
      var a := Eval(env, dictionary, address);
      if env.memory.None? || a.None? then None
      else
        match env.memory.value(a.value)
        case None => None
        case Some(v) => Some(Reduce(v, env.Modulus()))
  }

  predicate IsLeaf(e: Expr) {
    e.Constant? || e.Name?
  }

  // Whether running the tokens of e gets through: a name is looked up only when it is used.
  predicate Ready(env: Env, dictionary: map<string, nat>, e: Expr) {
    IsLeaf(e) || Eval(env, dictionary, e).Some?
  }

  // Evaluating from left to right comes to a division of a value by zero. A division whose operands
  // are not reached, or whose dividend has no value, is not one.
  predicate Dividing(env: Env, dictionary: map<string, nat>, e: Expr) {
    match e
    case Constant(_, _) => false
    case Name(_) => false
    case Binary(op, l, r) =>
      || Dividing(env, dictionary, l)
      || (Ready(env, dictionary, l) && Dividing(env, dictionary, r))
      || (Divides(op) && Eval(env, dictionary, l).Some? && Eval(env, dictionary, r) == Some(0))
    case Deref(a) => Dividing(env, dictionary, a)
  }

  // The dictionary and marks after the statements, up to the first that has no value or assigns to
  // something other than a variable.
  function Exec(env: Env, stmts: seq<Stmt>, dictionary: map<string, nat>, marked: map<string, bool>)
    : (bool, map<string, nat>, map<string, bool>)
  {
    if stmts == [] then (true, dictionary, marked)
    else
      var x := stmts[0].target;
      match Eval(env, dictionary, stmts[0].value)
      case None => (false, dictionary, marked)
      case Some(v) =>
        if IsVariable(x) then Exec(env, stmts[1..], dictionary[x := v], marked[x := true])
        else (false, dictionary, marked)
  }

  // The first statement that stops comes to a division by zero, or assigns a value to a negative
  // literal.
  predicate ProgramUndefined(env: Env, stmts: seq<Stmt>, dictionary: map<string, nat>) {
    stmts != [] &&
    var x := stmts[0].target;
    match Eval(env, dictionary, stmts[0].value)
    case None => Dividing(env, dictionary, stmts[0].value)
    case Some(v) =>
      if IsVariable(x) then ProgramUndefined(env, stmts[1..], dictionary[x := v]) else NegativeLiteral(env, x)
  }

  // ---------------------------------------------------------------- program strings

  function ConstantToken(negative: bool, n: nat): string {
    (if negative then "-" else "") + Decimal(n)
  }

  function ExprTokens(e: Expr): seq<string> {
    match e
    case Constant(negative, n) => [ConstantToken(negative, n)]
    case Name(x) => [x]
    case Binary(op, l, r) => ExprTokens(l) + (ExprTokens(r) + [OperatorToken(op)])
    case Deref(a) => ExprTokens(a) + ["^"]
  }

  function StmtTokens(s: Stmt): seq<string> {
    [s.target] + (ExprTokens(s.value) + ["="])
  }

  function ProgramTokens(stmts: seq<Stmt>): seq<string> {
    if stmts == [] then [] else StmtTokens(stmts[0]) + ProgramTokens(stmts[1..])
  }

  // A pushed word with no assignment sign stuck to its front: a variable, a constant's name or a
  // number.
  predicate IsTarget(x: string) {
    IsWord(x) && IsPushed(x) && x[0] != '='
  }

  predicate IsName(env: Env, x: string) {
    IsTarget(x) && !IsNumber(x, env.Modulus(), env.minus)
  }

  // Constants fit the value type, names are no numbers.
  predicate Writable(env: Env, e: Expr) {
    match e
    case Constant(_, n) => n < env.Modulus()
    case Name(x) => IsName(env, x)
    case Binary(_, l, r) => Writable(env, l) && Writable(env, r)
    case Deref(a) => Writable(env, a)
  }

  predicate WritableProgram(env: Env, stmts: seq<Stmt>) {
    forall i :: 0 <= i < |stmts| ==> IsTarget(stmts[i].target) && Writable(env, stmts[i].value)
  }

  // ---------------------------------------------------------------- tokens push and pop as meant

  lemma VariableIsNoLiteral(env: Env, x: string)
    requires IsVariable(x)
    ensures Literal(x, env.Modulus(), env.minus).None?
  {
  }

  lemma ConstantTokenReads(env: Env, negative: bool, n: nat)
    requires n < env.Modulus()
    ensures Literal(ConstantToken(negative, n), env.Modulus(), env.minus)
         == Some(Reduce(if negative then 0 - n as int else n as int, env.Modulus()))
  {
    DecimalReadsBack(n);
    hide Decimal;
    hide NumeralValue;
    hide Pow2;
    var d, t := Decimal(n), ConstantToken(negative, n);
    assert IsDigit(d[0]);
    if negative {
      assert t[0] == '-' && t[1..] == d;
    } else {
      assert t == d;
    }
  }

  lemma ConstantTokenIsPlain(negative: bool, n: nat)
    ensures var t := ConstantToken(negative, n); OperatorOf(t).None? && t != "^" && t != "=" && IsWord(t) && t[0] != '='
  {
    hide Decimal;
    var d, t := Decimal(n), ConstantToken(negative, n);
    assert IsDigit(d[0]) && IsDigit(d[|d| - 1]);
    assert t[|t| - 1] == d[|d| - 1];
    if negative {
      assert t == "-" + d;
    }
  }

  // ---------------------------------------------------------------- expressions

  // The value of an operation is what its token computes of the values of its operands.
  lemma EvalComputes(env: Env, dictionary: map<string, nat>, op: Operator, l: Expr, r: Expr)
    requires Typed(env, dictionary)
    ensures
      var a, b, v := Eval(env, dictionary, l), Eval(env, dictionary, r), Eval(env, dictionary, Binary(op, l, r));
      if a.None? || b.None? then v.None?
      else if b.value == 0 && (OperatorToken(op) == "/" || OperatorToken(op) == "%") then v.None?
      else v.Some? && Computes(env, OperatorToken(op), a.value, b.value, v.value)
  {
    hide Computes;
    hide Apply;
    hide Typed;
    EvalTyped(env, dictionary, l);
    EvalTyped(env, dictionary, r);
    var a, b := Eval(env, dictionary, l), Eval(env, dictionary, r);
    if a.Some? && b.Some? && !(Divides(op) && b.value == 0) {
      ApplyComputes(env, op, a.value, b.value);
    }
  }

  // What divides by zero has no value.
  lemma {:induction false} DividingHasNoValue(env: Env, dictionary: map<string, nat>, e: Expr)
    ensures Ready(env, dictionary, e) ==> !Dividing(env, dictionary, e)
  {
    match e
    case Constant(_, _) =>
    case Name(_) =>
    case Binary(op, l, r) =>
      DividingHasNoValue(env, dictionary, l);
      DividingHasNoValue(env, dictionary, r);
    case Deref(a) => DividingHasNoValue(env, dictionary, a);
  }

  // What the tokens of e leave on the stack.
  function Left(env: Env, dictionary: map<string, nat>, e: Expr): string
    requires Ready(env, dictionary, e)
  {
    match e
    case Constant(negative, n) => ConstantToken(negative, n)
    case Name(x) => x
    case _ => Decimal(Eval(env, dictionary, e).value)
  }

  lemma EvalTyped(env: Env, dictionary: map<string, nat>, e: Expr)
    requires Typed(env, dictionary)
    ensures Eval(env, dictionary, e).Some? ==> Eval(env, dictionary, e).value < env.Modulus()
  {
  }

  // What is left pops as the value meant, or as nothing when a name has none.
  lemma LeftPops(env: Env, dictionary: map<string, nat>, e: Expr, stack: seq<string>)
    requires Typed(env, dictionary) && Writable(env, e) && Ready(env, dictionary, e)
    ensures
      var s := stack + [Left(env, dictionary, e)];
      ValueOf(env, dictionary, s) == Eval(env, dictionary, e) && Rest(s) == stack
  {
    var token := Left(env, dictionary, e);
    PushedPops(env, dictionary, token, stack);
    hide ValueOf;
    hide Rest;
    hide Decimal;
    hide Apply;
    hide Reduce;
    match e
    case Constant(negative, n) => ConstantTokenReads(env, negative, n);
    case Name(x) => LiteralIffNumber(x, env.Modulus(), env.minus);
    case _ =>
      EvalTyped(env, dictionary, e);
      PrintedValueIsLiteral(Eval(env, dictionary, e).value, env.Modulus(), env.minus);
  }

  lemma PushedPops(env: Env, dictionary: map<string, nat>, token: string, stack: seq<string>)
    ensures Rest(stack + [token]) == stack
    ensures ValueOf(env, dictionary, stack + [token]) ==
            match Literal(token, env.Modulus(), env.minus)
            case Some(v) => Some(v)
            case None => if token in dictionary then Some(dictionary[token]) else None
  {
  }

  // Running the tokens of an expression leaves its value to be popped and changes nothing else; if
  // it gets through at all, and if it stops in a division by zero, is decided by the expression's
  // meaning.
  ghost predicate RunsAsMeant(env: Env, e: Expr, st: State) {
    var r := Run(env, ExprTokens(e), st);
    if Ready(env, st.dictionary, e) then r == Result(Done, Push(st, Left(env, st.dictionary, e)))
    else Stops(r, st, Dividing(env, st.dictionary, e))
  }

  // The run did not get through and wrote nothing; it was undefined or it failed.
  predicate Stops(r: Result, st: State, undefined: bool) {
    && r.outcome == (if undefined then Undefined else Failed)
    && r.state.dictionary == st.dictionary && r.state.marked == st.marked
  }

  lemma RunOne(env: Env, token: string, st: State)
    ensures Run(env, [token], st) == Step(env, token, st)
  {
  }

  lemma {:induction false} ExprRuns(env: Env, e: Expr, st: State)
    requires Typed(env, st.dictionary) && Writable(env, e)
    ensures RunsAsMeant(env, e, st)
    decreases e
  {
    match e
    case Constant(negative, n) =>
      ConstantTokenIsPlain(negative, n);
      RunOne(env, ConstantToken(negative, n), st);
    case Name(x) =>
      RunOne(env, x, st);
    case Binary(op, l, r) =>
      ExprRuns(env, l, st);
      if Ready(env, st.dictionary, l) {
        ExprRuns(env, r, Push(st, Left(env, st.dictionary, l)));
      }
      BinaryRuns(env, op, l, r, st);
    case Deref(a) =>
      ExprRuns(env, a, st);
      DerefRuns(env, a, st);
  }

  // The operator pops what its operands left and pushes what the expression means.
  lemma OperatorRuns(env: Env, op: Operator, l: Expr, r: Expr, st: State)
    requires Typed(env, st.dictionary) && Writable(env, l) && Writable(env, r)
    requires Ready(env, st.dictionary, l) && Ready(env, st.dictionary, r)
    ensures
      var q := Step(env, OperatorToken(op), Push(Push(st, Left(env, st.dictionary, l)), Left(env, st.dictionary, r)));
      match Eval(env, st.dictionary, Binary(op, l, r))
      case Some(v) => q == Result(Done, Push(st, Decimal(v)))
      case None =>
        Stops(q, st, Divides(op) && Eval(env, st.dictionary, l).Some? && Eval(env, st.dictionary, r) == Some(0))
  {
    hide ValueOf;
    hide Rest;
    hide Left;
    hide Writable;
    hide Typed;
    hide Apply;
    hide Decimal;
    var s1 := Push(st, Left(env, st.dictionary, l));
    LeftPops(env, st.dictionary, r, s1.stack);
    LeftPops(env, st.dictionary, l, st.stack);
    OperatorTokenIsOperator(op);
    hide OperatorOf;
    hide OperatorToken;
  }

  lemma OperatorTokenIsOperator(op: Operator)
    ensures OperatorOf(OperatorToken(op)) == Some(op)
  {
  }

  lemma BinaryRuns(env: Env, op: Operator, l: Expr, r: Expr, st: State)
    requires Typed(env, st.dictionary) && Writable(env, l) && Writable(env, r)
    requires RunsAsMeant(env, l, st)
    requires Ready(env, st.dictionary, l) ==> RunsAsMeant(env, r, Push(st, Left(env, st.dictionary, l)))
    ensures RunsAsMeant(env, Binary(op, l, r), st)
  {
    hide Step;
    hide Run;
    hide Typed;
    hide Writable;
    DividingHasNoValue(env, st.dictionary, l);
    DividingHasNoValue(env, st.dictionary, r);
    RunConcat(env, ExprTokens(l), ExprTokens(r) + [OperatorToken(op)], st);
    if Ready(env, st.dictionary, l) {
      var s1 := Push(st, Left(env, st.dictionary, l));
      RunConcat(env, ExprTokens(r), [OperatorToken(op)], s1);
      if Ready(env, st.dictionary, r) {
        RunOne(env, OperatorToken(op), Push(s1, Left(env, st.dictionary, r)));
        OperatorRuns(env, op, l, r, st);
      }
    }
  }

  // The "^" pops what its operand left and pushes what memory holds there.
  lemma DerefStepRuns(env: Env, a: Expr, st: State)
    requires Typed(env, st.dictionary) && Writable(env, a) && Ready(env, st.dictionary, a)
    ensures
      var q := Step(env, "^", Push(st, Left(env, st.dictionary, a)));
      match Eval(env, st.dictionary, Deref(a))
      case Some(v) => q == Result(Done, Push(st, Decimal(v)))
      case None => Stops(q, st, false)
  {
    hide OperatorOf;
    hide Operate;
    hide Assign;
    hide Apply;
    hide ValueOf;
    hide Rest;
    hide Left;
    hide Literal;
    hide Pow2;
    hide Writable;
    hide Typed;
    hide Decimal;
    hide Reduce;
    CaretIsNoOperator();
    LeftPops(env, st.dictionary, a, st.stack);
  }

  lemma CaretIsNoOperator()
    ensures OperatorOf("^").None?
  {
  }

  lemma DerefRuns(env: Env, a: Expr, st: State)
    requires Typed(env, st.dictionary) && Writable(env, a)
    requires RunsAsMeant(env, a, st)
    ensures RunsAsMeant(env, Deref(a), st)
  {
    hide Step;
    hide Run;
    hide Writable;
    hide Typed;
    DividingHasNoValue(env, st.dictionary, a);
    RunConcat(env, ExprTokens(a), ["^"], st);
    if Ready(env, st.dictionary, a) {
      RunOne(env, "^", Push(st, Left(env, st.dictionary, a)));
      DerefStepRuns(env, a, st);
    }
  }

  // ---------------------------------------------------------------- statements and programs

  // Whatever word the target is, a statement gets to its assignment exactly when its value gets
  // through, and then pops that value first.
  lemma StmtReaches(env: Env, s: Stmt, st: State)
    requires Typed(env, st.dictionary) && IsPushed(s.target) && Writable(env, s.value)
    ensures
      var r := Run(env, StmtTokens(s), st);
      if Ready(env, st.dictionary, s.value) then
        var s2 := Push(Push(st, s.target), Left(env, st.dictionary, s.value));
        && r == Assign(env, s2)
        && ValueOf(env, st.dictionary, s2.stack) == Eval(env, st.dictionary, s.value)
        && Rest(s2.stack) == st.stack + [s.target] && Rest(Rest(s2.stack)) == st.stack
        && !Dividing(env, st.dictionary, s.value)
      else Stops(r, st, Dividing(env, st.dictionary, s.value))
  {
    hide Apply;
    hide Decimal;
    hide Reduce;
    hide Literal;
    hide Writable;
    hide Typed;
    hide Assign;
    var e := s.value;
    RunConcat(env, [s.target], ExprTokens(e) + ["="], st);
    RunOne(env, s.target, st);
    var s1 := Push(st, s.target);
    RunConcat(env, ExprTokens(e), ["="], s1);
    ExprRuns(env, e, s1);
    DividingHasNoValue(env, st.dictionary, e);
    if Ready(env, st.dictionary, e) {
      RunOne(env, "=", Push(s1, Left(env, st.dictionary, e)));
      LeftPops(env, st.dictionary, e, s1.stack);
      assert s1.stack[..|s1.stack| - 1] == st.stack;
    }
  }

  // A statement gets through exactly when its value exists and its target is a variable. It is
  // undefined exactly when its value comes to a division by zero, or exists and the target is a
  // negative literal.
  lemma StmtRuns(env: Env, s: Stmt, st: State)
    requires Typed(env, st.dictionary) && IsPushed(s.target) && Writable(env, s.value)
    ensures
      var r := Run(env, StmtTokens(s), st);
      match Eval(env, st.dictionary, s.value)
      case Some(v) =>
        if IsVariable(s.target) then
          r == Result(Done, State(st.dictionary[s.target := v], st.stack, st.marked[s.target := true]))
        else Stops(r, st, NegativeLiteral(env, s.target))
      case None => Stops(r, st, Dividing(env, st.dictionary, s.value))
  {
    if IsVariable(s.target) {
      VariableIsNoLiteral(env, s.target);
    }
    StmtReaches(env, s, st);
    hide Run;
    hide Left;
    hide Literal;
    hide ValueOf;
    hide Rest;
    hide Dividing;
  }

  lemma {:induction false} ProgramRuns(env: Env, stmts: seq<Stmt>, st: State)
    requires Typed(env, st.dictionary) && WritableProgram(env, stmts)
    ensures
      var r := Run(env, ProgramTokens(stmts), st);
      var (ok, d, m) := Exec(env, stmts, st.dictionary, st.marked);
      && (r.outcome.Done? <==> ok)
      && r.state.dictionary == d && r.state.marked == m
      && (ok ==> r.state.stack == st.stack)
      && (r.outcome == Undefined <==> ProgramUndefined(env, stmts, st.dictionary))
    decreases |stmts|
  {
    if stmts != [] {
      var s := stmts[0];
      RunConcat(env, StmtTokens(s), ProgramTokens(stmts[1..]), st);
      StmtRuns(env, s, st);
      EvalTyped(env, st.dictionary, s.value);
      match Eval(env, st.dictionary, s.value)
      case None =>
      case Some(v) =>
        if IsVariable(s.target) {
          ProgramRuns(env, stmts[1..], State(st.dictionary[s.target := v], st.stack, st.marked[s.target := true]));
        }
    }
  }

  // ---------------------------------------------------------------- from tokens to strings

  // The program string with each assignment sign written against the next target.
  function GluedTokens(stmts: seq<Stmt>): seq<string> {
    if stmts == [] then []
    else [stmts[0].target] + GluedTail(stmts)
  }

  function GluedTail(stmts: seq<Stmt>): seq<string>
    requires stmts != []
  {
    ExprTokens(stmts[0].value) +
    if |stmts| == 1 then ["="] else ["=" + stmts[1].target] + GluedTail(stmts[1..])
  }

  // A word the stream extracts whole and the evaluator does not split.
  predicate IsPlain(t: string) {
    IsWord(t) && !(|t| > 1 && t[0] == '=')
  }

  ghost predicate AllPlain(tokens: seq<string>) {
    forall i :: 0 <= i < |tokens| ==> IsPlain(tokens[i])
  }

  lemma {:induction false} ExprTokensPlain(env: Env, e: Expr)
    requires Writable(env, e)
    ensures AllPlain(ExprTokens(e))
  {
    match e
    case Constant(negative, n) => ConstantTokenIsPlain(negative, n);
    case Name(x) =>
    case Binary(op, l, r) =>
      ExprTokensPlain(env, l);
      ExprTokensPlain(env, r);
    case Deref(a) => ExprTokensPlain(env, a);
  }

  lemma {:induction false} UngluePlain(tokens: seq<string>, rest: seq<string>)
    requires AllPlain(tokens)
    ensures Unglue(tokens + rest) == tokens + Unglue(rest)
  {
    if tokens == [] {
      assert tokens + rest == rest;
    } else {
      assert (tokens + rest)[1..] == tokens[1..] + rest;
      UngluePlain(tokens[1..], rest);
    }
  }

  lemma {:induction false} ProgramTokensPlain(env: Env, stmts: seq<Stmt>)
    requires WritableProgram(env, stmts)
    ensures AllPlain(ProgramTokens(stmts))
  {
    if stmts != [] {
      ExprTokensPlain(env, stmts[0].value);
      ProgramTokensPlain(env, stmts[1..]);
    }
  }

  lemma {:induction false} UnglueGluedTail(env: Env, stmts: seq<Stmt>)
    requires WritableProgram(env, stmts) && stmts != []
    ensures Unglue(GluedTail(stmts)) == ExprTokens(stmts[0].value) + (["="] + ProgramTokens(stmts[1..]))
    decreases |stmts|
  {
    hide Unglue;
    hide Writable;
    hide IsWord;
    var e := ExprTokens(stmts[0].value);
    ExprTokensPlain(env, stmts[0].value);
    if |stmts| == 1 {
      UngluePlain(e, ["="]);
      UnglueAssign();
    } else {
      var x, rest := stmts[1].target, GluedTail(stmts[1..]);
      UngluePlain(e, ["=" + x] + rest);
      UnglueWord(x, rest);
      UnglueGluedTail(env, stmts[1..]);
    }
  }

  lemma UnglueAssign()
    ensures Unglue(["="]) == ["="]
  {
  }

  lemma UnglueWord(x: string, rest: seq<string>)
    requires IsWord(x)
    ensures Unglue(["=" + x] + rest) == ["="] + ([x] + Unglue(rest))
  {
  }

  // Written with spaces or with glued assignment signs, the string is evaluated to what the program
  // means: it succeeds exactly when every statement has a value and assigns it to a variable, it is
  // undefined exactly when the first statement that stops divides by zero or assigns to a negative
  // literal, it leaves the stack empty on success, and the dictionary is the one the statements build.
  lemma ProgramStringEvaluates(env: Env, stmts: seq<Stmt>, expression: string, st: State)
    requires Typed(env, st.dictionary) && WritableProgram(env, stmts) && st.stack == []
    requires expression == Join(ProgramTokens(stmts)) || expression == Join(GluedTokens(stmts))
    ensures
      var r := Run(env, Unglue(Split(expression)), st);
      var (ok, d, m) := Exec(env, stmts, st.dictionary, st.marked);
      && (r.outcome.Done? && r.state.stack == [] <==> ok)
      && r.state.dictionary == d && r.state.marked == m
      && (r.outcome == Undefined <==> ProgramUndefined(env, stmts, st.dictionary))
  {
    hide Run;
    hide Exec;
    hide ProgramUndefined;
    hide Split;
    hide Join;
    ProgramTokensPlain(env, stmts);
    ProgramRuns(env, stmts, st);
    if expression == Join(ProgramTokens(stmts)) {
      SplitJoin(ProgramTokens(stmts));
      UngluePlain(ProgramTokens(stmts), []);
      assert ProgramTokens(stmts) + [] == ProgramTokens(stmts) && Unglue([]) == [];
    } else {
      GluedTokensAreWords(env, stmts);
      SplitJoin(GluedTokens(stmts));
      UnglueGlued(env, stmts);
    }
  }

  lemma Regroup<T>(a: seq<T>, b: seq<T>, c: seq<T>, d: seq<T>)
    ensures a + (b + (c + d)) == (a + (b + c)) + d
  {
  }

  lemma UnglueGlued(env: Env, stmts: seq<Stmt>)
    requires WritableProgram(env, stmts)
    ensures Unglue(GluedTokens(stmts)) == ProgramTokens(stmts)
  {
    if stmts != [] {
      var x := stmts[0].target;
      assert AllPlain([x]);
      hide Unglue;
      hide IsWord;
      hide Writable;
      hide GluedTail;
      hide ExprTokens;
      UngluePlain([x], GluedTail(stmts));
      UnglueGluedTail(env, stmts);
      Regroup([x], ExprTokens(stmts[0].value), ["="], ProgramTokens(stmts[1..]));
    } else {
      assert Unglue([]) == [];
    }
  }

  lemma GluedTokensAreWords(env: Env, stmts: seq<Stmt>)
    requires WritableProgram(env, stmts)
    ensures forall i :: 0 <= i < |GluedTokens(stmts)| ==> IsWord(GluedTokens(stmts)[i])
  {
    if stmts != [] {
      GluedTailIsWords(env, stmts);
    }
  }

  lemma {:induction false} GluedTailIsWords(env: Env, stmts: seq<Stmt>)
    requires WritableProgram(env, stmts) && stmts != []
    ensures forall i :: 0 <= i < |GluedTail(stmts)| ==> IsWord(GluedTail(stmts)[i])
    decreases |stmts|
  {
    ExprTokensPlain(env, stmts[0].value);
    if |stmts| > 1 {
      GluedTailIsWords(env, stmts[1..]);
      assert IsWord("=" + stmts[1].target);
    }
  }

  // An expression on its own leaves exactly one entry, which pops as its value, unless it comes to
  // a division by zero or to something without a value.
  lemma ExprStringEvaluates(env: Env, e: Expr, dictionary: map<string, nat>)
    requires Typed(env, dictionary) && Writable(env, e)
    ensures
      var r := Run(env, Unglue(Split(Join(ExprTokens(e)))), State(dictionary, [], map[]));
      && r.state.dictionary == dictionary
      && (r.outcome == Undefined <==> Dividing(env, dictionary, e))
      && Eval(env, dictionary, e) ==
         if r.outcome.Done? && |r.state.stack| == 1 then ValueOf(env, dictionary, r.state.stack) else None
  {
    hide Run;
    hide Split;
    hide Join;
    var st := State(dictionary, [], map[]);
    ExprTokensPlain(env, e);
    SplitJoin(ExprTokens(e));
    UngluePlain(ExprTokens(e), []);
    assert ExprTokens(e) + [] == ExprTokens(e) && Unglue([]) == [];
    ExprRuns(env, e, st);
    if Ready(env, dictionary, e) {
      LeftPops(env, dictionary, e, []);
      DividingHasNoValue(env, dictionary, e);
    }
  }

  // ---------------------------------------------------------------- the evaluator itself

  // Evaluating a program string, in either spelling, does what the program means.
  method EvaluateProgram(p: PostfixEvaluator, stmts: seq<Stmt>, glued: bool, marks: Marks?) returns (outcome: Outcome)
    requires p.stack_ == [] && Typed(p.env, p.dictionary_) && WritableProgram(p.env, stmts)
    modifies p, marks
    ensures p.stack_ == []
    ensures
      var (ok, d, m) := Exec(p.env, stmts, old(p.dictionary_), old(p.Now(marks)).marked);
      && p.dictionary_ == d && (marks != null ==> marks.marked == m)
      && outcome == if ok then Done
                    else if ProgramUndefined(p.env, stmts, old(p.dictionary_)) then Undefined else Failed
  {
    hide Run;
    hide Exec;
    hide ProgramUndefined;
    hide Typed;
    hide WritableProgram;
    hide Split;
    hide Join;
    hide Unglue;
    hide Harmless;
    var expression := Join(if glued then GluedTokens(stmts) else ProgramTokens(stmts));
    ProgramStringEvaluates(p.env, stmts, expression, p.Now(marks));
    outcome := p.Evaluate(expression, marks);
  }

  // Evaluating an expression string gives the expression's value.
  method EvaluateExpression(p: PostfixEvaluator, e: Expr) returns (outcome: Outcome, result: Option<nat>)
    requires p.stack_ == [] && Typed(p.env, p.dictionary_) && Writable(p.env, e)
    modifies p
    ensures p.stack_ == [] && p.dictionary_ == old(p.dictionary_) && result == Eval(p.env, p.dictionary_, e)
    ensures outcome == if result.Some? then Done else if Dividing(p.env, p.dictionary_, e) then Undefined else Failed
  {
    hide Run;
    hide Eval;
    hide Dividing;
    hide Typed;
    hide Writable;
    hide Split;
    hide Join;
    hide Unglue;
    hide Harmless;
    hide ValueOf;
    ExprStringEvaluates(p.env, e, p.dictionary_);
    outcome, result := p.EvaluateForValue(Join(ExprTokens(e)));
  }
}
