/** The automated driver of `random_player.py`: the same session loop as
    `Session.Play`, with the choice drawn at random instead of read from
    the player. The draw is the parameter `choose`: `choose(t, count)` is
    the `t`-th draw (counting from 0 in this run) of `randint(1, count)`. */
module RandomPlayer {
  import opened Story
  import opened Reactions
  import opened Changes
  import opened Session

  /** The move that `after` records over `before` is draw `t` over the
      number of reactions offered in `before`. */
  predicate Drew(docs: Documents, choose: (nat, nat) -> int, t: nat, before: Snapshot, after: Snapshot) {
    |before.moves| < |after.moves|
    && Offered(docs, before).Success?
    && after.moves[|before.moves|] == choose(t, |Offered(docs, before).value|)
  }

  /** The draws made in a run: the move of turn `i` is draw `i` over the
      number of reactions offered in that turn. */
  predicate DrawnBy(docs: Documents, choose: (nat, nat) -> int, states: seq<Snapshot>) {
    forall i :: 0 <= i < |states| - 1 ==> Drew(docs, choose, i, states[i], states[i + 1])
  }

  lemma DrawnByExtend(docs: Documents, choose: (nat, nat) -> int, states: seq<Snapshot>, next: Snapshot)
    requires DrawnBy(docs, choose, states) && states != []
    requires Drew(docs, choose, |states| - 1, Last(states), next)
    ensures DrawnBy(docs, choose, states + [next])
  {
  }

  /** How the iteration that began at `before`, making draw `t`, ended the
      session in state `final`. */
  predicate RandomEndedBy(docs: Documents, choose: (nat, nat) -> int, t: nat, ending: Ending, final: Snapshot, before: Snapshot) {
    && (ending.NoReactions? || ending.ReactionsFailed? || ending.ChangeFailed?)
    && (ending.NoReactions? || ending.ReactionsFailed? ==> final == before)
    && (ending.NoReactions? ==> Offered(docs, before) == Success([]))
    && (ending.ReactionsFailed? ==> Offered(docs, before) == Failure(ending.failure))
    && (ending.ChangeFailed? ==>
          FailedStep(docs, before, final, ending.failure) && Drew(docs, choose, t, before, final)
          && !ending.failure.IndexOutOfRange?)
  }

  /** One iteration of the random driver's loop after the save: load and
      filter, stop on an empty offer, draw, process the draw. */
  method RandomTurn(store: CharacterStore, docs: Documents, current: Snapshot, choose: (nat, nat) -> int, t: nat)
    returns (stop: Option<Ending>, next: Snapshot)
    requires store.characters == current.characters && Truthy(current.encounter)
    requires forall t: nat, count: nat :: 1 <= count ==> 1 <= choose(t, count) <= count
    modifies store
    ensures next.characters == store.characters
    ensures stop.None? ==> Step(docs, current, next) && Drew(docs, choose, t, current, next)
    ensures stop.Some? ==> RandomEndedBy(docs, choose, t, stop.value, next, current)
  {
    var doc := LoadEncounter(docs, current.encounter.value);
    var offered := PossibleReactions(doc, store.characters);
    assert offered == Offered(docs, current);
    if offered.Failure? {
      return Some(ReactionsFailed(offered.error)), current;
    }
    var reactions := offered.value;
    if |reactions| == 0 {
      return Some(NoReactions), current;
    }
    var n := choose(t, |reactions|);
    var processed;
    processed, next := TakeTurn(store, docs, current, reactions, n);
    if processed.Failure? {
      return Some(ChangeFailed(processed.error)), next;
    }
    return None, next;
  }

  /** `main` of the random driver, run for at most `maxTurns` turns. The
      session ends as soon as the offered list is empty, which includes a
      missing encounter document; otherwise every draw is in range, so
      processing never meets an out-of-range index. */
  method PlayRandom(store: CharacterStore, docs: Documents, encounter: Option<string>, load: Option<Snapshot>,
                    choose: (nat, nat) -> int, maxTurns: nat)
    returns (ending: Ending, final: Snapshot, saves: seq<Snapshot>)
    requires forall t: nat, count: nat :: 1 <= count ==> 1 <= choose(t, count) <= count
    modifies store
    ensures final.characters == store.characters
    ensures saves == [] ==> final == Starting(old(store.characters), encounter, load)
    ensures saves != [] ==> saves[0] == Starting(old(store.characters), encounter, load)
    ensures forall i :: 0 <= i < |saves| ==> Truthy(saves[i].encounter)
    ensures ending.StoryOver? || ending.NoReactions? || ending.OutOfTurns? || ending.ReactionsFailed? || ending.ChangeFailed?
    ensures ending.StoryOver? || ending.OutOfTurns? ==>
              Run(docs, saves + [final]) && DrawnBy(docs, choose, saves + [final]) && |saves| <= maxTurns
    ensures ending.StoryOver? ==> !Truthy(final.encounter)
    ensures ending.OutOfTurns? ==> |saves| == maxTurns
    ensures !ending.StoryOver? && !ending.OutOfTurns? ==>
              saves != [] && Run(docs, saves) && DrawnBy(docs, choose, saves)
              && RandomEndedBy(docs, choose, |saves| - 1, ending, final, Last(saves))
  {
    var start := Starting(store.characters, encounter, load);
    store.characters := start.characters;
    var current := start;
    saves := [];
    while Truthy(current.encounter)
      invariant store.characters == current.characters
      invariant |saves| <= maxTurns
      invariant saves == [] ==> current == start
      invariant saves != [] ==> saves[0] == start
      invariant forall i :: 0 <= i < |saves| ==> Truthy(saves[i].encounter)
      invariant Run(docs, saves + [current])
      invariant DrawnBy(docs, choose, saves + [current])
      decreases maxTurns - |saves|
    {
      if |saves| == maxTurns {
        return OutOfTurns, current, saves;
      }
      saves := saves + [current];
      var stop, next := RandomTurn(store, docs, current, choose, |saves| - 1);
      if stop.Some? {
        return stop.value, next, saves;
      }
      RunExtend(docs, saves, next);
      DrawnByExtend(docs, choose, saves, next);
      current := next;
    }
    return StoryOver, current, saves;
  }
}
