/** The session state machine of `main.py`'s `main`: before each encounter
    is loaded the session state is saved; the encounter's reactions are
    filtered, the player chooses one, it is processed, and the move and
    the next encounter id are appended to the histories. The loop runs
    while the pending encounter id is truthy.

    `Step` describes one completed turn on session states; `Run` chains
    turns. Both drivers (this one and `RandomPlayer.PlayRandom`) are proved
    to follow `Run`. */
module Session {
  import opened Story
  import opened Reactions
  import opened Choice
  import opened Changes

  /** The session state, as the save file holds it: the characters, the
      visited-encounter history, the pending encounter id and the moves. */
  datatype Snapshot = Snapshot(
    characters: Characters,
    encounters: seq<Option<string>>,
    encounter: Option<string>,
    moves: seq<int>)

  /** How a session ends. */
  datatype Ending =
    | StoryOver                          // the pending id became falsy ("The end.")
    | PlayerQuit                         // "q" or "quit" at the prompt
    | InputClosed                        // end of input (EOFError)
    | ReactionsFailed(failure: Failure)  // a condition raised while filtering
    | ChangeFailed(failure: Failure)     // a change raised while processing
    | NoReactions                        // random driver: nothing to choose from
    | OutOfTurns                         // random driver: the turn bound was reached

  /** The state a session starts from: a fresh start from the loaded
      characters and the start id, or everything read back from a save. */
  function Starting(characters: Characters, encounter: Option<string>, load: Option<Snapshot>): Snapshot {
    match load
    case None => Snapshot(characters, [], encounter, [])
    case Some(saved) => saved
  }

  /** The reactions offered in the pending encounter of `s`. */
  function Offered(docs: Documents, s: Snapshot): Result<seq<Reaction>, Failure> {
    PossibleReactions(if s.encounter.Some? then LoadEncounter(docs, s.encounter.value) else None, s.characters)
  }

  /** The reaction `n` (1-based) among those offered in `s`, if there is one. */
  function Pick(docs: Documents, s: Snapshot, n: int): Option<Reaction> {
    var offered := Offered(docs, s);
    if offered.Success? && 1 <= n <= |offered.value| then Some(offered.value[n - 1]) else None
  }

  /** One completed turn from `before` to `after`: a truthy pending id, one
      more move naming an offered reaction, that reaction's changes applied
      without failure, and its next id both pending and appended. */
  predicate Step(docs: Documents, before: Snapshot, after: Snapshot) {
    Truthy(before.encounter)
    && |after.moves| == |before.moves| + 1
    && after.moves[..|before.moves|] == before.moves
    && var chosen := Pick(docs, before, after.moves[|before.moves|]);
       chosen.Some?
       && var update := ApplyDeltas(before.characters, Flatten(ChangesOf(chosen.value)));
          update.failure.None?
          && after.characters == update.characters
          && after.encounter == chosen.value.encounter
          && after.encounters == before.encounters + [chosen.value.encounter]
  }

  /** The turn from `before` that recorded its move and then raised `failure`
      in a change, leaving the store as far as the update got. */
  predicate FailedStep(docs: Documents, before: Snapshot, after: Snapshot, failure: Failure) {
    Truthy(before.encounter)
    && |after.moves| == |before.moves| + 1
    && after.moves[..|before.moves|] == before.moves
    && var chosen := Pick(docs, before, after.moves[|before.moves|]);
       chosen.Some?
       && var update := ApplyDeltas(before.characters, Flatten(ChangesOf(chosen.value)));
          update.failure == Some(failure)
          && after.characters == update.characters
          && after.encounter == before.encounter
          && after.encounters == before.encounters
  }

  /** A sequence of states each reached from the previous one by a turn. */
  predicate Run(docs: Documents, states: seq<Snapshot>) {
    forall i :: 0 <= i < |states| - 1 ==> Step(docs, states[i], states[i + 1])
  }

  lemma RunExtend(docs: Documents, states: seq<Snapshot>, next: Snapshot)
    requires Run(docs, states) && states != [] && Step(docs, states[|states| - 1], next)
    ensures Run(docs, states + [next])
  {
  }

  /** A turn that chose reaction `n` among those offered and applied its
      changes to completion is a `Step`. */
  lemma CompletedTurn(docs: Documents, current: Snapshot, reactions: seq<Reaction>, n: int, next: Snapshot)
    requires Truthy(current.encounter) && Offered(docs, current) == Success(reactions) && 1 <= n <= |reactions|
    requires ApplyDeltas(current.characters, Flatten(ChangesOf(reactions[n - 1]))) == Update(next.characters, None)
    requires next.moves == current.moves + [n]
    requires next.encounter == reactions[n - 1].encounter && next.encounters == current.encounters + [next.encounter]
    ensures Step(docs, current, next)
  {
  }

  /** A turn that chose reaction `n` among those offered and raised while
      applying its changes is a `FailedStep`; the failure is a missing
      character or attribute, never a bad index. */
  lemma FailedTurn(docs: Documents, current: Snapshot, reactions: seq<Reaction>, n: int, next: Snapshot, failure: Failure)
    requires Truthy(current.encounter) && Offered(docs, current) == Success(reactions) && 1 <= n <= |reactions|
    requires ApplyDeltas(current.characters, Flatten(ChangesOf(reactions[n - 1]))) == Update(next.characters, Some(failure))
    requires next == Snapshot(next.characters, current.encounters, current.encounter, current.moves + [n])
    ensures FailedStep(docs, current, next, failure) && !failure.IndexOutOfRange?
  {
    assert next.moves[..|current.moves|] == current.moves && next.moves[|current.moves|] == n;
    ApplyStopsAt(current.characters, Flatten(ChangesOf(reactions[n - 1])));
  }

  /** The end of a loop iteration, shared by both drivers: the move is
      recorded, the chosen reaction is processed against the store in
      place, and on success the next id is appended and becomes pending. */
  method TakeTurn(store: CharacterStore, docs: Documents, current: Snapshot, reactions: seq<Reaction>, n: int)
    returns (processed: Result<Processed, Failure>, next: Snapshot)
    requires store.characters == current.characters && Truthy(current.encounter)
    requires Offered(docs, current) == Success(reactions) && 1 <= n <= |reactions|
    modifies store
    ensures next.characters == store.characters && next.moves == current.moves + [n]
    ensures processed.Success? ==> Step(docs, current, next) && next.encounter == processed.value.next
    ensures processed.Failure? ==>
              FailedStep(docs, current, next, processed.error) && !processed.error.IndexOutOfRange?
  {
    var doc := LoadEncounter(docs, current.encounter.value);
    var moves := current.moves + [n];
    assert doc.Some? && PyIndex(n, |reactions|) == Some(n - 1);
    ghost var update := ApplyDeltas(current.characters, Flatten(ChangesOf(reactions[n - 1])));
    processed := ProcessReactions(n, reactions, doc, store);
    if processed.Failure? {
      assert update == Update(store.characters, Some(processed.error));
      next := Snapshot(store.characters, current.encounters, current.encounter, moves);
      FailedTurn(docs, current, reactions, n, next, processed.error);
      return;
    }
    assert update == Update(store.characters, None);
    next := Snapshot(store.characters, current.encounters + [processed.value.next], processed.value.next, moves);
    CompletedTurn(docs, current, reactions, n, next);
  }

  // ---------------------------------------------------------------------
  // Properties of runs

  /** Every turn appends exactly one move and one encounter id, so the
      histories grow in lockstep and earlier histories are prefixes of
      later ones. */
  lemma {:induction false} RunLockstep(docs: Documents, states: seq<Snapshot>, i: nat)
    requires Run(docs, states) && i < |states|
    ensures |states[i].moves| == |states[0].moves| + i
    ensures |states[i].encounters| == |states[0].encounters| + i
    ensures states[i].moves[..|states[0].moves|] == states[0].moves
    ensures states[i].encounters[..|states[0].encounters|] == states[0].encounters
  {
    if i > 0 {
      RunLockstep(docs, states, i - 1);
      var before, after := states[i - 1], states[i];
      assert Step(docs, before, after);
      assert after.moves[..|states[0].moves|] == before.moves[..|states[0].moves|];
      assert after.encounters[..|states[0].encounters|] == before.encounters[..|states[0].encounters|];
    }
  }

  /** Every recorded move is a valid 1-based choice among the reactions that
      were offered when it was made. */
  lemma RunMovesInRange(docs: Documents, states: seq<Snapshot>, i: nat)
    requires Run(docs, states) && i + 1 < |states|
    ensures var n := states[i + 1].moves[|states[i].moves|];
            Offered(docs, states[i]).Success? && 1 <= n <= |Offered(docs, states[i]).value|
  {
  }

  /** A saved state after the first turn is pending on the id that the
      previous turn appended: the save is written for the encounter about
      to be loaded. */
  lemma RunPendingIsLastVisited(docs: Documents, states: seq<Snapshot>, i: nat)
    requires Run(docs, states) && 0 < i < |states|
    ensures states[i].encounters != []
    ensures states[i].encounters[|states[i].encounters| - 1] == states[i].encounter
  {
    assert Step(docs, states[i - 1], states[i]);
  }

  /** A missing encounter document offers nothing, so no turn can start from it. */
  lemma MissingEncounterEndsRun(docs: Documents, s: Snapshot, t: Snapshot)
    requires s.encounter.Some? && s.encounter.value !in docs
    ensures Offered(docs, s) == Success([])
    ensures !Step(docs, s, t)
  {
  }

  // ---------------------------------------------------------------------
  // The interactive driver

  function Last<T>(s: seq<T>): T
    requires s != []
  {
    s[|s| - 1]
  }

  /** The number of reactions offered in `s`, when the filter succeeds. */
  function OfferCount(docs: Documents, s: Snapshot): nat {
    var offered := Offered(docs, s);
    if offered.Success? then |offered.value| else 0
  }

  /** The prompt at `before`, reading the lines `input`, picked the move
      that `after` records. */
  predicate Answered(docs: Documents, parse: string -> Option<int>, before: Snapshot, input: seq<string>, after: Snapshot) {
    Offered(docs, before).Success?
    && |before.moves| < |after.moves|
    && Prompt(input, OfferCount(docs, before), parse).0 == Picked(after.moves[|before.moves|])
  }

  /** After the prompt at `before` read from `input`, a line was left for
      "(Press Return)", and `rest` is what follows it. */
  predicate Continued(docs: Documents, parse: string -> Option<int>, before: Snapshot, input: seq<string>, rest: seq<string>) {
    var used := Prompt(input, OfferCount(docs, before), parse).1;
    used < |input| && rest == input[used + 1..]
  }

  /** The moves between `states` were read from `lines`: `inputs[i]` is
      what was left of the input when the prompt of `states[i]` began. */
  predicate ReadFrom(docs: Documents, parse: string -> Option<int>, lines: seq<string>,
                     states: seq<Snapshot>, inputs: seq<seq<string>>) {
    && |inputs| == |states|
    && (states != [] ==> inputs[0] == lines)
    && forall i :: 0 <= i < |states| - 1 ==>
         Answered(docs, parse, states[i], inputs[i], states[i + 1])
         && Continued(docs, parse, states[i], inputs[i], inputs[i + 1])
  }

  lemma ReadFromExtend(docs: Documents, parse: string -> Option<int>, lines: seq<string>,
                       states: seq<Snapshot>, inputs: seq<seq<string>>, next: Snapshot, rest: seq<string>)
    requires ReadFrom(docs, parse, lines, states, inputs) && states != []
    requires Answered(docs, parse, Last(states), Last(inputs), next)
    requires Continued(docs, parse, Last(states), Last(inputs), rest)
    ensures ReadFrom(docs, parse, lines, states + [next], inputs + [rest])
  {
    var longer, more := states + [next], inputs + [rest];
    forall i | 0 <= i < |longer| - 1
      ensures Answered(docs, parse, longer[i], more[i], longer[i + 1])
              && Continued(docs, parse, longer[i], more[i], more[i + 1])
    {
      if i < |states| - 1 {
        assert longer[i] == states[i] && longer[i + 1] == states[i + 1];
        assert more[i] == inputs[i] && more[i + 1] == inputs[i + 1];
      }
    }
  }

  /** How an iteration that began at `before`, with `input` left, ended
      the session in state `final`. */
  predicate EndedBy(docs: Documents, parse: string -> Option<int>, ending: Ending, final: Snapshot,
                    before: Snapshot, input: seq<string>) {
    && (ending.PlayerQuit? || ending.InputClosed? || ending.ReactionsFailed? || ending.ChangeFailed?)
    && (ending.PlayerQuit? || ending.ReactionsFailed? ==> final == before)
    && (ending.ReactionsFailed? ==> Offered(docs, before) == Failure(ending.failure))
    && (ending.PlayerQuit? ==>
          Offered(docs, before).Success? && Prompt(input, OfferCount(docs, before), parse).0 == Quit)
    && (ending.InputClosed? ==>
          (final == before && Offered(docs, before).Success?
           && Prompt(input, OfferCount(docs, before), parse).0 == EndOfInput)
          || (Step(docs, before, final) && Answered(docs, parse, before, input, final)
              && Prompt(input, OfferCount(docs, before), parse).1 == |input|))
    && (ending.ChangeFailed? ==>
          FailedStep(docs, before, final, ending.failure)
          && Answered(docs, parse, before, input, final)
          && !ending.failure.IndexOutOfRange?)
  }

  /** One iteration of `main`'s loop after the save: load and filter,
      prompt, process the choice, then "(Press Return)". `stop` is the
      ending when the session ends in this iteration; otherwise `next` is
      the state for the next save and `rest` the input left. */
  method PlayTurn(store: CharacterStore, docs: Documents, current: Snapshot, input: seq<string>,
                  parse: string -> Option<int>)
    returns (stop: Option<Ending>, next: Snapshot, rest: seq<string>)
    requires store.characters == current.characters && Truthy(current.encounter)
    modifies store
    ensures next.characters == store.characters
    ensures stop.None? ==>
              Step(docs, current, next) && Answered(docs, parse, current, input, next)
              && Continued(docs, parse, current, input, rest) && |rest| < |input|
    ensures stop.Some? ==> EndedBy(docs, parse, stop.value, next, current, input)
  {
    var doc := LoadEncounter(docs, current.encounter.value);
    var offered := PossibleReactions(doc, store.characters);
    assert offered == Offered(docs, current);
    if offered.Failure? {
      return Some(ReactionsFailed(offered.error)), current, input;
    }
    var reactions := offered.value;
    var choice, used := GetReaction(input, |reactions|, parse);
    if choice.Quit? {
      return Some(PlayerQuit), current, input[used..];
    }
    if choice.EndOfInput? {
      return Some(InputClosed), current, input[used..];
    }
    var processed;
    processed, next := TakeTurn(store, docs, current, reactions, choice.number);
    assert Answered(docs, parse, current, input, next);
    if processed.Failure? {
      return Some(ChangeFailed(processed.error)), next, input[used..];
    }
    if used == |input| {
      return Some(InputClosed), next, [];  // press_return
    }
    return None, next, input[used + 1..];
  }

  /** `main`: runs the session from the start id, or from the save `load`.
      The returned `saves` are the states written before each encounter
      load, `final` the state when the session ended, and `inputs[i]` the
      input left when the prompt of the `i`-th state began. Input lines are
      read by the prompt and by "(Press Return)" after each turn. */
  method Play(store: CharacterStore, docs: Documents, encounter: Option<string>, load: Option<Snapshot>,
              lines: seq<string>, parse: string -> Option<int>)
    returns (ending: Ending, final: Snapshot, saves: seq<Snapshot>, ghost inputs: seq<seq<string>>)
    modifies store
    ensures final.characters == store.characters
    ensures saves == [] ==> final == Starting(old(store.characters), encounter, load) && ending.StoryOver?
    ensures saves != [] ==> saves[0] == Starting(old(store.characters), encounter, load)
    ensures forall i :: 0 <= i < |saves| ==> Truthy(saves[i].encounter)
    ensures ending.StoryOver? || ending.PlayerQuit? || ending.InputClosed? || ending.ReactionsFailed? || ending.ChangeFailed?
    ensures ending.StoryOver? ==>
              Run(docs, saves + [final]) && ReadFrom(docs, parse, lines, saves + [final], inputs)
              && !Truthy(final.encounter)
    ensures !ending.StoryOver? ==>
              saves != [] && Run(docs, saves) && ReadFrom(docs, parse, lines, saves, inputs)
    ensures !ending.StoryOver? ==> EndedBy(docs, parse, ending, final, Last(saves), Last(inputs))
  {
    var start := Starting(store.characters, encounter, load);
    store.characters := start.characters;
    var current := start;
    saves, inputs := [], [];
    var rest := lines;
    while Truthy(current.encounter)
      invariant store.characters == current.characters
      invariant saves == [] ==> current == start && rest == lines
      invariant saves != [] ==> saves[0] == start
      invariant forall i :: 0 <= i < |saves| ==> Truthy(saves[i].encounter)
      invariant Run(docs, saves + [current])
      invariant ReadFrom(docs, parse, lines, saves + [current], inputs + [rest])
      decreases |rest|
    {
      saves, inputs := saves + [current], inputs + [rest];
      var stop, next, left := PlayTurn(store, docs, current, rest, parse);
      if stop.Some? {
        return stop.value, next, saves, inputs;
      }
      RunExtend(docs, saves, next);
      ReadFromExtend(docs, parse, lines, saves, inputs, next, left);
      current, rest := next, left;
    }
    return StoryOver, current, saves, inputs + [rest];
  }
}
