/** Condition evaluation (`meets_condition`): a condition is a list of
    expressions, each comparing one attribute of one character against
    the thresholds it carries. `MeetsCondition` follows the source's
    evaluation order, including where Python's `and` short-circuits a
    lookup; `ConditionHolds` and `ConditionResolvable` are the
    declarative reading it is proved against. */
module Conditions {
  import opened Story

  /** A threshold that is present in an expression. */
  datatype Threshold =
    | Greater(bound: int)
    | Less(bound: int)
    | GreaterEqual(bound: int)
    | LessEqual(bound: int)
    | Equal(bound: int)

  predicate Satisfies(value: int, t: Threshold) {
    match t
    case Greater(b) => value > b
    case Less(b) => value < b
    case GreaterEqual(b) => value >= b
    case LessEqual(b) => value <= b
    case Equal(b) => value == b
  }

  /** An expression takes part only when it names both a character and a parameter. */
  predicate Active(e: Expression) {
    Truthy(e.character) && Truthy(e.parameter)
  }

  /** Some threshold key is present in `e` (a threshold of 0 counts). */
  predicate Compares(e: Expression) {
    e.greaterThan.Some? || e.lessThan.Some? || e.greaterThanEqual.Some? || e.lessThanEqual.Some? || e.equals.Some?
  }

  /** `value` meets every threshold present in `e`, key by key. */
  predicate Meets(value: int, e: Expression) {
    && (e.greaterThan.Some? ==> value > e.greaterThan.value)
    && (e.lessThan.Some? ==> value < e.lessThan.value)
    && (e.greaterThanEqual.Some? ==> value >= e.greaterThanEqual.value)
    && (e.lessThanEqual.Some? ==> value <= e.lessThanEqual.value)
    && (e.equals.Some? ==> value == e.equals.value)
  }

  /** The thresholds present in `e`, in the order the source compares them. */
  function Thresholds(e: Expression): (ts: seq<Threshold>)
    ensures |ts| <= 5
    ensures ts == [] <==> !Compares(e)
  {
    (if e.greaterThan.Some? then [Greater(e.greaterThan.value)] else [])
    + (if e.lessThan.Some? then [Less(e.lessThan.value)] else [])
    + (if e.greaterThanEqual.Some? then [GreaterEqual(e.greaterThanEqual.value)] else [])
    + (if e.lessThanEqual.Some? then [LessEqual(e.lessThanEqual.value)] else [])
    + (if e.equals.Some? then [Equal(e.equals.value)] else [])
  }

  /** The comparisons the evaluator makes are exactly the key-by-key
      reading of the expression. */
  lemma ThresholdsMeet(value: int, e: Expression)
    ensures (forall t :: t in Thresholds(e) ==> Satisfies(value, t)) <==> Meets(value, e)
  {
    var ts := Thresholds(e);
    if forall t :: t in ts ==> Satisfies(value, t) {
      if e.greaterThan.Some? { assert Greater(e.greaterThan.value) in ts; }
      if e.lessThan.Some? { assert Less(e.lessThan.value) in ts; }
      if e.greaterThanEqual.Some? { assert GreaterEqual(e.greaterThanEqual.value) in ts; }
      if e.lessThanEqual.Some? { assert LessEqual(e.lessThanEqual.value) in ts; }
      if e.equals.Some? { assert Equal(e.equals.value) in ts; }
    }
  }

  function Expressions(condition: Option<seq<Expression>>): seq<Expression> {
    condition.GetOr([])
  }

  // ---------------------------------------------------------------------
  // The declarative reading

  /** Every lookup an active expression could make succeeds: its character
      exists, and so does its parameter when there is something to compare. */
  predicate Resolvable(characters: Characters, e: Expression) {
    Active(e) ==>
      e.character.value in characters
      && (Compares(e) ==> e.parameter.value in characters[e.character.value])
  }

  /** An active expression holds when its attribute satisfies every present
      threshold; an inactive one imposes nothing. */
  predicate Holds(characters: Characters, e: Expression) {
    Active(e) ==>
      e.character.value in characters
      && (Compares(e) ==>
            e.parameter.value in characters[e.character.value]
            && Meets(characters[e.character.value][e.parameter.value], e))
  }

  /** `e` is an active expression whose lookup raises the lookup failure `f`. */
  predicate Witness(characters: Characters, e: Expression, f: Failure) {
    && Active(e)
    && !f.IndexOutOfRange?
    && e.character.value == f.name
    && (f.UnknownCharacter? ==> f.name !in characters)
    && (f.UnknownAttribute? ==>
          f.name in characters && e.parameter.value == f.attribute
          && f.attribute !in characters[f.name] && Compares(e))
  }

  predicate ConditionResolvable(characters: Characters, condition: Option<seq<Expression>>) {
    forall e :: e in Expressions(condition) ==> Resolvable(characters, e)
  }

  predicate ConditionHolds(characters: Characters, condition: Option<seq<Expression>>) {
    forall e :: e in Expressions(condition) ==> Holds(characters, e)
  }

  // ---------------------------------------------------------------------
  // The evaluator

  /** The threshold comparisons of one expression, threaded through the
      accumulator `allConditions`. Once it is false, `and` short-circuits
      and the parameter is never looked up. */
  function CompareAll(pValues: map<string, int>, character: string, parameter: string,
                      ts: seq<Threshold>, allConditions: bool): Result<bool, Failure>
  {
    if ts == [] then Success(allConditions)
    else if !allConditions then Success(false)
    else if parameter !in pValues then Failure(UnknownAttribute(character, parameter))
    else CompareAll(pValues, character, parameter, ts[1..], Satisfies(pValues[parameter], ts[0]))
  }

  /** The loop over the expressions. The character lookup of an active
      expression happens whatever the accumulator holds. */
  function EvaluateFrom(characters: Characters, exprs: seq<Expression>, allConditions: bool): Result<bool, Failure>
  {
    if exprs == [] then Success(allConditions)
    else
      var e := exprs[0];
      if !Active(e) then EvaluateFrom(characters, exprs[1..], allConditions)
      else if e.character.value !in characters then Failure(UnknownCharacter(e.character.value))
      else
        match CompareAll(characters[e.character.value], e.character.value, e.parameter.value,
                         Thresholds(e), allConditions)
        case Failure(f) => Failure(f)
        case Success(b) => EvaluateFrom(characters, exprs[1..], b)
  }

  /** `meets_condition`: an absent or empty condition is met. */
  function MeetsCondition(characters: Characters, condition: Option<seq<Expression>>): (r: Result<bool, Failure>)
    ensures condition.None? || condition == Some([]) ==> r == Success(true)
  {
    match condition
    case None => Success(true)
    case Some(exprs) => EvaluateFrom(characters, exprs, true)
  }

  // ---------------------------------------------------------------------
  // One expression

  lemma {:induction false} CompareAllResolved(pValues: map<string, int>, character: string, parameter: string,
                                              ts: seq<Threshold>, acc: bool)
    requires ts != [] ==> parameter in pValues
    ensures CompareAll(pValues, character, parameter, ts, acc)
            == Success(acc && (ts == [] || forall t :: t in ts ==> Satisfies(pValues[parameter], t)))
  {
    if ts != [] && acc {
      CompareAllResolved(pValues, character, parameter, ts[1..], Satisfies(pValues[parameter], ts[0]));
      assert forall t :: t in ts <==> t == ts[0] || t in ts[1..];
    }
  }

  lemma {:induction false} CompareAllTrue(pValues: map<string, int>, character: string, parameter: string,
                                          ts: seq<Threshold>, acc: bool)
    requires CompareAll(pValues, character, parameter, ts, acc) == Success(true)
    ensures acc
    ensures ts != [] ==> parameter in pValues && forall t :: t in ts ==> Satisfies(pValues[parameter], t)
  {
    if ts != [] {
      var rest := ts[1..];
      CompareAllTrue(pValues, character, parameter, rest, Satisfies(pValues[parameter], ts[0]));
      if rest != [] {
        assert forall t :: t in ts <==> t == ts[0] || t in rest;
      } else {
        assert ts == [ts[0]];
      }
    }
  }

  lemma {:induction false} CompareAllFailure(pValues: map<string, int>, character: string, parameter: string,
                                             ts: seq<Threshold>, acc: bool)
    requires CompareAll(pValues, character, parameter, ts, acc).Failure?
    ensures ts != [] && parameter !in pValues
    ensures CompareAll(pValues, character, parameter, ts, acc).error == UnknownAttribute(character, parameter)
  {
    if ts != [] && acc && parameter in pValues {
      CompareAllFailure(pValues, character, parameter, ts[1..], Satisfies(pValues[parameter], ts[0]));
    }
  }

  // ---------------------------------------------------------------------
  // The loop over expressions

  lemma {:induction false} EvaluateFromResolvable(characters: Characters, exprs: seq<Expression>, acc: bool)
    requires forall e :: e in exprs ==> Resolvable(characters, e)
    ensures EvaluateFrom(characters, exprs, acc)
            == Success(acc && forall e :: e in exprs ==> Holds(characters, e))
  {
    if exprs != [] {
      var e := exprs[0];
      assert forall x :: x in exprs <==> x == e || x in exprs[1..];
      if !Active(e) {
        EvaluateFromResolvable(characters, exprs[1..], acc);
      } else {
        var c, p := e.character.value, e.parameter.value;
        var ts := Thresholds(e);
        assert e in exprs && Resolvable(characters, e);
        CompareAllResolved(characters[c], c, p, ts, acc);
        var b := acc && (ts == [] || forall t :: t in ts ==> Satisfies(characters[c][p], t));
        if ts != [] {
          ThresholdsMeet(characters[c][p], e);
        }
        EvaluateFromResolvable(characters, exprs[1..], b);
        assert b == (acc && Holds(characters, e));
      }
    }
  }

  lemma {:induction false} EvaluateFromTrue(characters: Characters, exprs: seq<Expression>, acc: bool)
    requires EvaluateFrom(characters, exprs, acc) == Success(true)
    ensures acc
    ensures forall e :: e in exprs ==> Holds(characters, e)
  {
    if exprs != [] {
      var e := exprs[0];
      assert forall x :: x in exprs <==> x == e || x in exprs[1..];
      if !Active(e) {
        EvaluateFromTrue(characters, exprs[1..], acc);
      } else {
        var c, p := e.character.value, e.parameter.value;
        assert c in characters;
        var inner := CompareAll(characters[c], c, p, Thresholds(e), acc);
        assert inner.Success?;
        var b := inner.value;
        EvaluateFromTrue(characters, exprs[1..], b);
        CompareAllTrue(characters[c], c, p, Thresholds(e), acc);
        if Thresholds(e) != [] {
          ThresholdsMeet(characters[c][p], e);
        }
      }
    }
  }

  lemma {:induction false} EvaluateFromFailure(characters: Characters, exprs: seq<Expression>, acc: bool)
    requires EvaluateFrom(characters, exprs, acc).Failure?
    ensures var f := EvaluateFrom(characters, exprs, acc).error;
            !f.IndexOutOfRange? && exists e :: Witness(characters, e, f) && e in exprs
  {
    var e := exprs[0];
    var f := EvaluateFrom(characters, exprs, acc).error;
    if !Active(e) {
      EvaluateFromFailure(characters, exprs[1..], acc);
      var w :| Witness(characters, w, f) && w in exprs[1..];
      assert w in exprs;
    } else if e.character.value in characters {
      var c, p := e.character.value, e.parameter.value;
      var inner := CompareAll(characters[c], c, p, Thresholds(e), acc);
      if inner.Failure? {
        CompareAllFailure(characters[c], c, p, Thresholds(e), acc);
        assert e in exprs;
      } else {
        EvaluateFromFailure(characters, exprs[1..], inner.value);
        var w :| Witness(characters, w, f) && w in exprs[1..];
        assert w in exprs;
      }
    } else {
      assert e in exprs;
    }
  }

  lemma {:induction false} EvaluateFromUnknownCharacter(characters: Characters, exprs: seq<Expression>, acc: bool, i: nat)
    requires i < |exprs| && Active(exprs[i]) && exprs[i].character.value !in characters
    ensures EvaluateFrom(characters, exprs, acc).Failure?
  {
    var e := exprs[0];
    if i > 0 {
      if !Active(e) {
        EvaluateFromUnknownCharacter(characters, exprs[1..], acc, i - 1);
      } else if e.character.value in characters {
        var c, p := e.character.value, e.parameter.value;
        var inner := CompareAll(characters[c], c, p, Thresholds(e), acc);
        if inner.Success? {
          EvaluateFromUnknownCharacter(characters, exprs[1..], inner.value, i - 1);
        }
      }
    }
  }

  /** A compared parameter that is missing raises when the comparison is
      reached with the result still true: after expressions that all hold. */
  lemma {:induction false} EvaluateFromMissingParameter(characters: Characters, exprs: seq<Expression>, acc: bool, i: nat)
    requires acc && i < |exprs| && Active(exprs[i]) && Compares(exprs[i])
    requires exprs[i].character.value in characters
    requires exprs[i].parameter.value !in characters[exprs[i].character.value]
    requires forall j :: 0 <= j < i ==> Holds(characters, exprs[j])
    ensures EvaluateFrom(characters, exprs, acc) == Failure(UnknownAttribute(exprs[i].character.value, exprs[i].parameter.value))
  {
    var e := exprs[0];
    if i > 0 {
      assert Holds(characters, e);
      assert forall j :: 0 <= j < i - 1 ==> exprs[1..][j] == exprs[j + 1];
      if !Active(e) {
        EvaluateFromMissingParameter(characters, exprs[1..], acc, i - 1);
      } else {
        var c, p := e.character.value, e.parameter.value;
        var ts := Thresholds(e);
        if ts != [] {
          ThresholdsMeet(characters[c][p], e);
        }
        CompareAllResolved(characters[c], c, p, ts, acc);
        assert CompareAll(characters[c], c, p, ts, acc) == Success(true);
        EvaluateFromMissingParameter(characters, exprs[1..], true, i - 1);
      }
    }
  }

  /** A missing-parameter failure is raised with the result still true, by
      the first expression that does not hold: every earlier one holds. */
  lemma {:induction false} EvaluateFromUnknownAttribute(characters: Characters, exprs: seq<Expression>, acc: bool)
    requires EvaluateFrom(characters, exprs, acc).Failure?
    requires EvaluateFrom(characters, exprs, acc).error.UnknownAttribute?
    ensures acc
    ensures var f := EvaluateFrom(characters, exprs, acc).error;
            exists i :: 0 <= i < |exprs| && Witness(characters, exprs[i], f)
                        && forall j :: 0 <= j < i ==> Holds(characters, exprs[j])
  {
    var e := exprs[0];
    var f := EvaluateFrom(characters, exprs, acc).error;
    if Active(e) {
      var c, p := e.character.value, e.parameter.value;
      assert c in characters;
      var inner := CompareAll(characters[c], c, p, Thresholds(e), acc);
      if inner.Failure? {
        CompareAllFailure(characters[c], c, p, Thresholds(e), acc);
        assert acc && Witness(characters, exprs[0], f);
        return;
      }
      EvaluateFromUnknownAttribute(characters, exprs[1..], inner.value);
      CompareAllTrue(characters[c], c, p, Thresholds(e), acc);
      if Thresholds(e) != [] {
        ThresholdsMeet(characters[c][p], e);
      }
    } else {
      EvaluateFromUnknownAttribute(characters, exprs[1..], acc);
    }
    assert Holds(characters, e);
    var k :| 0 <= k < |exprs[1..]| && Witness(characters, exprs[1..][k], f)
             && forall j :: 0 <= j < k ==> Holds(characters, exprs[1..][j]);
    assert Witness(characters, exprs[k + 1], f);
    assert forall j :: 0 <= j < k + 1 ==> Holds(characters, exprs[j]) by {
      forall j | 0 <= j < k + 1 ensures Holds(characters, exprs[j]) {
        if j > 0 { assert exprs[j] == exprs[1..][j - 1]; }
      }
    }
  }

  // ---------------------------------------------------------------------
  // Properties of meets_condition

  /** When every lookup succeeds, the evaluator computes the conjunction of
      every present threshold over every active expression. */
  lemma MeetsConditionCorrect(characters: Characters, condition: Option<seq<Expression>>)
    requires ConditionResolvable(characters, condition)
    ensures MeetsCondition(characters, condition) == Success(ConditionHolds(characters, condition))
  {
    if condition.Some? {
      EvaluateFromResolvable(characters, condition.value, true);
    }
  }

  /** The condition is met exactly when every active expression holds. */
  lemma MeetsConditionTrueIff(characters: Characters, condition: Option<seq<Expression>>)
    ensures MeetsCondition(characters, condition) == Success(true) <==> ConditionHolds(characters, condition)
  {
    if condition.Some? {
      if MeetsCondition(characters, condition) == Success(true) {
        EvaluateFromTrue(characters, condition.value, true);
      }
      if ConditionHolds(characters, condition) {
        assert ConditionResolvable(characters, condition);
        EvaluateFromResolvable(characters, condition.value, true);
      }
    }
  }

  /** A lookup failure names an active expression whose character, or
      whose compared parameter, is missing: it is never a silent false. */
  lemma MeetsConditionFailure(characters: Characters, condition: Option<seq<Expression>>)
    requires MeetsCondition(characters, condition).Failure?
    ensures !ConditionResolvable(characters, condition)
    ensures var f := MeetsCondition(characters, condition).error;
            !f.IndexOutOfRange? && exists e :: Witness(characters, e, f) && e in Expressions(condition)
  {
    EvaluateFromFailure(characters, condition.value, true);
    var f := MeetsCondition(characters, condition).error;
    var e :| Witness(characters, e, f) && e in Expressions(condition);
    assert !Resolvable(characters, e);
  }

  /** The character of every active expression is looked up, so an unknown
      character always raises, even after an earlier comparison failed. */
  lemma MeetsConditionUnknownCharacter(characters: Characters, condition: Option<seq<Expression>>, i: nat)
    requires i < |Expressions(condition)|
    requires Active(Expressions(condition)[i]) && Expressions(condition)[i].character.value !in characters
    ensures MeetsCondition(characters, condition).Failure?
  {
    EvaluateFromUnknownCharacter(characters, condition.value, true, i);
  }

  /** A missing compared parameter raises when every expression before it
      holds. */
  lemma MeetsConditionMissingParameter(characters: Characters, condition: Option<seq<Expression>>, i: nat)
    requires i < |Expressions(condition)|
    requires var e := Expressions(condition)[i];
             Active(e) && Compares(e) && e.character.value in characters
             && e.parameter.value !in characters[e.character.value]
    requires forall j :: 0 <= j < i ==> Holds(characters, Expressions(condition)[j])
    ensures var e := Expressions(condition)[i];
            MeetsCondition(characters, condition) == Failure(UnknownAttribute(e.character.value, e.parameter.value))
  {
    EvaluateFromMissingParameter(characters, condition.value, true, i);
  }

  /** Conversely, a missing-parameter failure comes from the first
      expression that does not hold; an earlier failed comparison would
      have skipped the lookup. */
  lemma MeetsConditionUnknownAttribute(characters: Characters, condition: Option<seq<Expression>>)
    requires MeetsCondition(characters, condition).Failure?
    requires MeetsCondition(characters, condition).error.UnknownAttribute?
    ensures var f := MeetsCondition(characters, condition).error;
            var exprs := Expressions(condition);
            exists i :: 0 <= i < |exprs| && Witness(characters, exprs[i], f)
                        && forall j :: 0 <= j < i ==> Holds(characters, exprs[j])
  {
    assert Expressions(condition) == condition.value;
    EvaluateFromUnknownAttribute(characters, condition.value, true);
  }

  /** An expression carrying only `equals` is met exactly when the current
      value equals the threshold. */
  lemma EqualsOnly(characters: Characters, c: string, p: string, v: int)
    requires c != "" && p != "" && c in characters && p in characters[c]
    ensures var e := Expression(Some(c), Some(p), None, None, None, None, Some(v));
            MeetsCondition(characters, Some([e])) == Success(characters[c][p] == v)
  {
    var e := Expression(Some(c), Some(p), None, None, None, None, Some(v));
    var met := characters[c][p] == v;
    assert Active(e) && Thresholds(e) == [Equal(v)];
    assert CompareAll(characters[c], c, p, [Equal(v)], true) == Success(met) by {
      assert [Equal(v)][1..] == [];
    }
    assert [e][1..] == [];
    assert EvaluateFrom(characters, [e], true) == EvaluateFrom(characters, [], met);
  }

  /** A parameter is looked up only while the accumulated result is true:
      after a failed comparison an unknown parameter does not raise. */
  lemma UnknownParameterAfterFalse(characters: Characters, c: string, p: string, q: string, bound: int)
    requires c != "" && p != "" && q != "" && c in characters && p in characters[c] && q !in characters[c]
    requires characters[c][p] <= bound
    ensures var first := Expression(Some(c), Some(p), Some(bound), None, None, None, None);
            var second := Expression(Some(c), Some(q), None, None, None, None, Some(0));
            MeetsCondition(characters, Some([first, second])) == Success(false)
            && MeetsCondition(characters, Some([second, first])) == Failure(UnknownAttribute(c, q))
  {
    var first := Expression(Some(c), Some(p), Some(bound), None, None, None, None);
    var second := Expression(Some(c), Some(q), None, None, None, None, Some(0));
    var pv := characters[c];
    assert Active(first) && Thresholds(first) == [Greater(bound)];
    assert Active(second) && Thresholds(second) == [Equal(0)];
    assert CompareAll(pv, c, p, [Greater(bound)], true) == Success(false) by {
      assert [Greater(bound)][1..] == [];
    }
    assert CompareAll(pv, c, q, [Equal(0)], false) == Success(false);
    assert [first, second][1..] == [second] && [second][1..] == [];
    assert EvaluateFrom(characters, [second], false) == Success(false);
    assert EvaluateFrom(characters, [first, second], true) == EvaluateFrom(characters, [second], false);
    assert CompareAll(pv, c, q, [Equal(0)], true) == Failure(UnknownAttribute(c, q));
  }
}
