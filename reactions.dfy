/** Reaction filtering (`get_possible_reactions`): the reactions of an
    encounter whose condition is currently met, in declaration order. The
    numbers shown to the player are 1-based positions in this list. */
module Reactions {
  import opened Story
  import opened Conditions

  /** The loop of `get_possible_reactions`: each condition is evaluated in
      declaration order and a lookup failure propagates. */
  function FilterReactions(characters: Characters, rs: seq<Reaction>): (r: Result<seq<Reaction>, Failure>)
    ensures r.Success? ==> |r.value| <= |rs|
    ensures r.Success? ==> forall x :: x in r.value ==>
              x in rs && MeetsCondition(characters, x.condition) == Success(true)
  {
    if rs == [] then Success([])
    else
      match MeetsCondition(characters, rs[0].condition)
      case Failure(f) => Failure(f)
      case Success(met) =>
        match FilterReactions(characters, rs[1..])
        case Failure(f) => Failure(f)
        case Success(rest) => Success(if met then [rs[0]] + rest else rest)
  }

  /** `get_possible_reactions`: nothing is offered for a missing encounter
      or an empty character store. */
  function PossibleReactions(encounter: Option<Encounter>, characters: Characters): (r: Result<seq<Reaction>, Failure>)
    ensures encounter.None? || characters == map[] ==> r == Success([])
    ensures r.Success? && r.value != [] ==> encounter.Some?
  {
    if encounter.None? || |characters| == 0 then Success([])
    else FilterReactions(characters, encounter.value.reactions)
  }

  // ---------------------------------------------------------------------
  // The declarative reading

  /** The reactions whose condition holds, in declaration order. */
  function Kept(characters: Characters, rs: seq<Reaction>): seq<Reaction> {
    if rs == [] then []
    else (if ConditionHolds(characters, rs[0].condition) then [rs[0]] else []) + Kept(characters, rs[1..])
  }

  /** Filtering distributes over concatenation: what is kept of an earlier
      reaction comes before what is kept of a later one. */
  lemma {:induction false} KeptAppend(characters: Characters, a: seq<Reaction>, b: seq<Reaction>)
    ensures Kept(characters, a + b) == Kept(characters, a) + Kept(characters, b)
  {
    if a == [] {
      assert a + b == b;
    } else {
      assert (a + b)[0] == a[0] && (a + b)[1..] == a[1..] + b;
      KeptAppend(characters, a[1..], b);
    }
  }

  /** A reaction is kept exactly when it is declared and its condition holds. */
  lemma {:induction false} KeptMembers(characters: Characters, rs: seq<Reaction>, x: Reaction)
    ensures x in Kept(characters, rs) <==> x in rs && ConditionHolds(characters, x.condition)
  {
    if rs != [] {
      KeptMembers(characters, rs[1..], x);
      assert x in rs <==> x == rs[0] || x in rs[1..];
    }
  }

  /** Whenever the filter succeeds (even when a short-circuited comparison
      skipped a missing parameter), it returns exactly the reactions whose
      condition holds, in declaration order. */
  lemma {:induction false} FilterReactionsCorrect(characters: Characters, rs: seq<Reaction>)
    requires FilterReactions(characters, rs).Success?
    ensures FilterReactions(characters, rs) == Success(Kept(characters, rs))
  {
    if rs != [] {
      var first := MeetsCondition(characters, rs[0].condition);
      assert first.Success?;
      MeetsConditionTrueIff(characters, rs[0].condition);
      var met := ConditionHolds(characters, rs[0].condition);
      assert first == Success(met);
      FilterReactionsCorrect(characters, rs[1..]);
      var rest := Kept(characters, rs[1..]);
      assert FilterReactions(characters, rs) == Success(if met then [rs[0]] + rest else rest);
      assert Kept(characters, rs) == (if met then [rs[0]] else []) + rest;
      if !met { assert [] + rest == rest; }
    }
  }

  /** Every reaction whose condition is met is offered. */
  lemma {:induction false} FilterReactionsComplete(characters: Characters, rs: seq<Reaction>, i: nat)
    requires i < |rs| && MeetsCondition(characters, rs[i].condition) == Success(true)
    requires FilterReactions(characters, rs).Success?
    ensures rs[i] in FilterReactions(characters, rs).value
  {
    if i > 0 {
      FilterReactionsComplete(characters, rs[1..], i - 1);
    }
  }

  /** The filter fails exactly when some condition fails, and it reports
      the failure of the first such condition. */
  lemma {:induction false} FilterReactionsFailure(characters: Characters, rs: seq<Reaction>)
    ensures FilterReactions(characters, rs).Failure? <==>
            exists i :: 0 <= i < |rs| && MeetsCondition(characters, rs[i].condition).Failure?
    ensures FilterReactions(characters, rs).Failure? ==>
            exists i :: 0 <= i < |rs|
              && MeetsCondition(characters, rs[i].condition) == Failure(FilterReactions(characters, rs).error)
              && forall j :: 0 <= j < i ==> MeetsCondition(characters, rs[j].condition).Success?
  {
    if rs != [] {
      FilterReactionsFailure(characters, rs[1..]);
      if MeetsCondition(characters, rs[0].condition).Success? {
        if FilterReactions(characters, rs[1..]).Failure? {
          var k :| 0 <= k < |rs[1..]|
            && MeetsCondition(characters, rs[1..][k].condition) == Failure(FilterReactions(characters, rs[1..]).error)
            && forall j :: 0 <= j < k ==> MeetsCondition(characters, rs[1..][j].condition).Success?;
          assert forall j :: 0 < j <= k ==> rs[j] == rs[1..][j - 1];
          assert MeetsCondition(characters, rs[k + 1].condition) == Failure(FilterReactions(characters, rs).error);
        } else {
          forall i | 0 <= i < |rs| ensures MeetsCondition(characters, rs[i].condition).Success? {
            if i > 0 { assert rs[i] == rs[1..][i - 1]; }
          }
        }
      }
    }
  }

  /** The example of two reactions where the first is gated on a trust of
      at least 10 and trust is 5: only the second is offered, at position 1. */
  lemma GatedReactionExample(gated: Reaction, open: Reaction)
    requires gated.condition == Some([Expression(Some("Alice"), Some("trust"), None, None, Some(10), None, None)])
    requires open.condition.None?
    ensures PossibleReactions(Some(Encounter(None, None, [gated, open])), map["Alice" := map["trust" := 5]])
            == Success([open])
  {
    var characters := map["Alice" := map["trust" := 5]];
    var e := gated.condition.value[0];
    assert Thresholds(e) == [GreaterEqual(10)];
    assert characters["Alice"]["trust"] == 5 && !Satisfies(5, GreaterEqual(10));
    assert !Holds(characters, e);
    assert ConditionResolvable(characters, gated.condition);
    MeetsConditionCorrect(characters, gated.condition);
    assert [gated, open][1..] == [open] && [open][1..] == [];
    assert MeetsCondition(characters, open.condition) == Success(true);
    assert FilterReactions(characters, []) == Success([]);
    assert [open] + [] == [open];
    assert FilterReactions(characters, [open]) == Success([open]);
    assert FilterReactions(characters, [gated, open]) == Success([open]);
  }
}
