// PostfixEvaluator itself: a loop over tokens that pushes, pops and assigns in place.

module PostfixEvaluators {
  import opened Options
  import opened Unsigned
  import opened Words
  import opened PostfixMachine

  // A DictionaryValidityType owned by the caller.
  class Marks {
    var marked: map<string, bool>

    constructor ()
      ensures marked == map[]
    {
      marked := map[];
    }
  }

  class PostfixEvaluator {
    const env: Env
    var dictionary_: map<string, nat>
    var stack_: seq<string>

    constructor (env: Env, dictionary: map<string, nat>)
      ensures this.env == env && dictionary_ == dictionary && stack_ == []
    {
      this.env := env;
      dictionary_ := dictionary;
      stack_ := [];
    }

    // What the evaluator and the caller's marks hold; without marks nothing is recorded.
    ghost function Now(marks: Marks?): State
      reads this, marks
    {
      State(dictionary_, stack_, if marks == null then map[] else marks.marked)
    }

    // The evaluator and the marks are as r says.
    ghost predicate Agrees(r: State, marks: Marks?)
      reads this, marks
    {
      dictionary_ == r.dictionary && stack_ == r.stack && (marks != null ==> marks.marked == r.marked)
    }

    // Pops one entry. Without a place for the value, negating a literal writes through a null
    // pointer; undefined reports that.
    method PopValueOrIdentifier(hasPlace: bool) returns (r: PopResult, undefined: bool)
      modifies this`stack_
      ensures r == TopOf(env, old(stack_)) && stack_ == Rest(old(stack_))
      ensures undefined <==> r.PopValue? && !hasPlace && Negative(old(stack_)[|old(stack_)| - 1])
    {
      if |stack_| == 0 {
        return PopFail, false;
      }
      var token := stack_[|stack_| - 1];
      stack_ := stack_[..|stack_| - 1];
      match Literal(token, env.Modulus(), env.minus) {
        case Some(v) => return PopValue(v), !hasPlace && Negative(token);
        case None => return PopIdentifier(token), false;
      }
    }

    method PopOneValue() returns (value: Option<nat>)
      modifies this`stack_
      ensures value == ValueOf(env, dictionary_, old(stack_)) && stack_ == Rest(old(stack_))
    {
      var r, undefined := PopValueOrIdentifier(true);
      match r {
        case PopFail => return None;
        case PopValue(v) => return Some(v);
        case PopIdentifier(x) =>
          if x !in dictionary_ {
            return None;
          }
          return Some(dictionary_[x]);
      }
    }

    // Pops value2, then value1.
    method PopValues() returns (value1: Option<nat>, value2: Option<nat>)
      modifies this`stack_
      ensures value2 == ValueOf(env, dictionary_, old(stack_))
      ensures value2.None? ==> value1.None? && stack_ == Rest(old(stack_))
      ensures value2.Some? ==> value1 == ValueOf(env, dictionary_, Rest(old(stack_)))
      ensures value2.Some? ==> stack_ == Rest(Rest(old(stack_)))
    {
      value1 := None;
      value2 := PopOneValue();
      if value2.Some? {
        value1 := PopOneValue();
      }
    }

    method PushValue(value: nat)
      modifies this`stack_
      ensures stack_ == old(stack_) + [Decimal(value)]
    {
      stack_ := stack_ + [Decimal(value)];
    }

    method EvaluateToken(token: string, marks: Marks?) returns (outcome: Outcome)
      modifies this, marks
      ensures var r := Step(env, token, old(Now(marks))); outcome == r.outcome && Agrees(r.state, marks)
    {
      hide Apply;
      hide Decimal;
      hide Literal;
      hide Reduce;
      var operation := OperatorOf(token);
      if operation.Some? {
        var operand1, operand2 := PopValues();
        if operand1.None? || operand2.None? {
          return Failed;
        }
        if Divides(operation.value) && operand2.value == 0 {
          return Undefined;
        }
        PushValue(Apply(env, operation.value, operand1.value, operand2.value));
      } else if token == "^" {
        if env.memory.None? {
          return Failed;
        }
        var address := PopOneValue();
        if address.None? {
          return Failed;
        }
        var value := env.memory.value(address.value);
        if value.None? {
          return Failed;
        }
        PushValue(Reduce(value.value, env.Modulus()));
      } else if token == "=" {
        var value := PopOneValue();
        if value.None? {
          return Failed;
        }
        var target, undefined := PopValueOrIdentifier(false);
        if undefined {
          return Undefined;
        }
        if !target.PopIdentifier? {
          return Failed;
        }
        if target.name == "" || target.name[0] != '$' {
          return Failed;
        }
        dictionary_ := dictionary_[target.name := value.value];
        if marks != null {
          marks.marked := marks.marked[target.name := true];
        }
      } else {
        stack_ := stack_ + [token];
      }
      return Done;
    }

    method EvaluateInternal(expression: string, marks: Marks?) returns (outcome: Outcome)
      modifies this, marks
      ensures
        var r := Run(env, Unglue(Split(expression)), old(Now(marks)));
        outcome == r.outcome && Agrees(r.state, marks)
    {
      hide Step;
      hide Split;
      var words := Split(expression);
      var i := 0;
      ghost var st := Now(marks);
      while i < |words|
        invariant 0 <= i <= |words|
        invariant Agrees(st, marks)
        invariant Run(env, Unglue(words), old(Now(marks))) == Run(env, Unglue(words[i..]), st)
      {
        var token := words[i];
        assert words[i..][0] == token && words[i..][1..] == words[i + 1..];
        if |token| > 1 && token[0] == '=' {
          UnglueTwo(env, words[i..], st);
          StepIgnoresMarks(env, "=", st, Now(marks));
          outcome := EvaluateToken("=", marks);
          if outcome != Done {
            return;
          }
          st := Step(env, "=", st).state;
          StepIgnoresMarks(env, token[1..], st, Now(marks));
          outcome := EvaluateToken(token[1..], marks);
          if outcome != Done {
            return;
          }
          st := Step(env, token[1..], st).state;
        } else {
          StepIgnoresMarks(env, token, st, Now(marks));
          outcome := EvaluateToken(token, marks);
          if outcome != Done {
            return;
          }
          st := Step(env, token, st).state;
        }
        i := i + 1;
      }
      return Done;
    }

    // Done is the true of the source, Failed its false. A string without division and without
    // negative literals is never undefined.
    method Evaluate(expression: string, marks: Marks?) returns (outcome: Outcome)
      requires stack_ == []
      modifies this, marks
      ensures stack_ == []
      ensures
        var r := Run(env, Unglue(Split(expression)), old(Now(marks)));
        && outcome == (if r.outcome == Done && r.state.stack != [] then Failed else r.outcome)
        && dictionary_ == r.state.dictionary && (marks != null ==> marks.marked == r.state.marked)
      ensures Harmless(env, Unglue(Split(expression))) ==> outcome != Undefined
    {
      if Harmless(env, Unglue(Split(expression))) {
        HarmlessRunIsDefined(env, Unglue(Split(expression)), Now(marks));
      }
      outcome := EvaluateInternal(expression, marks);
      if outcome == Done && stack_ != [] {
        outcome := Failed;
      }
      stack_ := [];
    }

    // The one value the expression leaves, when it leaves exactly one that stands for a value.
    method EvaluateForValue(expression: string) returns (outcome: Outcome, result: Option<nat>)
      requires stack_ == []
      modifies this
      ensures stack_ == []
      ensures
        var r := Run(env, Unglue(Split(expression)), State(old(dictionary_), [], map[]));
        && dictionary_ == r.state.dictionary
        && result == (if r.outcome == Done && |r.state.stack| == 1
                      then ValueOf(env, r.state.dictionary, r.state.stack) else None)
        && outcome == (if r.outcome != Done then r.outcome else if result.Some? then Done else Failed)
      ensures Harmless(env, Unglue(Split(expression))) ==> outcome != Undefined
    {
      if Harmless(env, Unglue(Split(expression))) {
        HarmlessRunIsDefined(env, Unglue(Split(expression)), Now(null));
      }
      result := None;
      outcome := EvaluateInternal(expression, null);
      if outcome == Done {
        if |stack_| != 1 {
          outcome := Failed;
        } else {
          result := PopOneValue();
          outcome := if result.Some? then Done else Failed;
        }
      }
      stack_ := [];
    }
  }

  // Whether anyone listens to the marks makes no difference to the rest.
  lemma StepIgnoresMarks(env: Env, token: string, st: State, other: State)
    requires st.dictionary == other.dictionary && st.stack == other.stack
    ensures
      var r, q := Step(env, token, st), Step(env, token, other);
      r.outcome == q.outcome && r.state.dictionary == q.state.dictionary && r.state.stack == q.state.stack
  {
    hide Apply;
    hide Decimal;
    hide Reduce;
    hide TopOf;
    hide ValueOf;
    hide Rest;
    hide OperatorOf;
    hide Pow2;
  }

  lemma UnglueTwo(env: Env, words: seq<string>, st: State)
    requires words != [] && |words[0]| > 1 && words[0][0] == '='
    ensures Run(env, Unglue(words), st) ==
            var r := Step(env, "=", st);
            if !r.outcome.Done? then r
            else
              var q := Step(env, words[0][1..], r.state);
              if !q.outcome.Done? then q else Run(env, Unglue(words[1..]), q.state)
  {
  }
}
