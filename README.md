# Hearsay story engine — a Dafny model of its core

Hearsay walks a player through a graph of *encounters*. Each encounter
offers *reactions*; a reaction may be gated by a *condition* on the
characters' numeric attributes ("p_values"), may carry *changes* that add
signed deltas to those attributes, and names the next encounter. The
engine saves the session state (characters, pending encounter id, move
history, visited-encounter history) before each encounter is loaded, so a
session can be resumed. A second driver plays the same loop with random
choices.

This project models that core:

- `story.dfy` (module `Story`): the documents as values — characters,
  expressions, changes, reactions, encounters — and the failures the engine
  raises (`KeyError` on a character or attribute, `IndexError` on a
  reaction index) as a `Failure` datatype. Python's truth value of an
  optional string key is `Truthy`.
- `conditions.dfy` (module `Conditions`): `meets_condition`. The evaluator
  `MeetsCondition` follows the source's evaluation order, including the
  short-circuit of `and` that skips a parameter lookup once the result is
  false, while the character lookup of every active expression always
  happens. It is proved against a declarative reading (`ConditionHolds`,
  `ConditionResolvable`).
- `reactions.dfy` (module `Reactions`): `get_possible_reactions`, proved
  against the declarative filter `Kept` (order kept, exactly the reactions
  whose condition holds, the first lookup failure reported).
- `choice.dfy` (module `Choice`): `get_reaction`, the prompt loop, over a
  finite sequence of input lines; running out of lines is end of input.
  `Prompt` says which line the loop stops at and what it answers; the loop
  `GetReaction` is proved to compute it.
- `changes.dfy` (module `Changes`): `process_reactions`. The character store
  is a class whose map is updated in place by nested loops
  (`ApplyChange`, `ApplyChanges`); the value-level specification is
  `ApplyDeltas` over the flattened deltas of a change list, with lemmas for
  partial application, sums, shape preservation and when it completes.
  Python's negative list indexing is `PyIndex`.
- `session.dfy` (module `Session`): `main`'s loop. A turn is a `Step`
  between two session states (`Snapshot`); a sequence of saved states is a
  `Run`. `Play` is proved to produce a `Run` of the states it saves, each
  pending on a truthy id, whose moves were read from the input lines
  (`ReadFrom`: each move is the number `Prompt` picked from what was left of
  the input, and one more line was consumed by "(Press Return)"). The
  ending it reports is tied to the last save and the input left then
  (`EndedBy`): a quit is the prompt reading "q" or "quit", closed input is
  the prompt or "(Press Return)" finding no line left.
- `random_player.dfy` (module `RandomPlayer`): the random driver, the same
  loop with each choice drawn by the parameter `choose`; every draw is
  recorded (`DrawnBy`) and lies in range, and the ending is tied to the last
  save (`RandomEndedBy`).

Behaviour of the code a reader might not expect, which the model keeps:

- The quit sentinels "q" and "quit" are matched exactly, so "Q" is an
  invalid response, not a quit (main.py:196).
- In the interactive driver a missing encounter document does not end the
  session: it offers no reactions, and `get_reaction` of an empty list
  rejects every number, so the prompt repeats until the player quits or
  input ends (main.py:296-300). The random driver does stop there
  (random_player.py:60-62).
- The selection index is not required to be in range: `process_reactions`
  uses Python indexing, so 0 and negative numbers pick from the end, and
  only numbers outside that raise (main.py:237-238).
- A missing parameter raises only when its comparison is reached with the
  result still true (main.py:86-102): after a failed comparison Python's
  `and` skips the lookup. A missing character always raises (main.py:84).
- The move is appended before `process_reactions` runs (main.py:303-304),
  so a turn whose change raises leaves one more move than visited
  encounters.

## Model

| member | source | states |
|---|---|---|
| Conditions.Thresholds | main.py:79-102 | at most five thresholds, and none exactly when no threshold key is present (a threshold of 0 counts) |
| Conditions.ThresholdsMeet | main.py:84-102 | a value satisfies every compared threshold exactly when it meets each present key: above `greater_than`, below `less_than`, at least `greater_than_equal`, at most `less_than_equal`, equal to `equals` |
| Conditions.MeetsCondition | main.py:71-103 | an absent or empty condition is met |
| Conditions.CompareAllResolved | main.py:84-102 | when the parameter exists, the comparisons of one expression give the accumulator and-ed with every present threshold |
| Conditions.CompareAllTrue | main.py:84-102 | a true result means the accumulator was true, the parameter exists and every present threshold holds |
| Conditions.CompareAllFailure | main.py:84-102 | the comparisons fail only with thresholds present and the parameter missing, and report that parameter |
| Conditions.EvaluateFromResolvable | main.py:75-103 | when every lookup succeeds the loop computes the accumulator and-ed with every expression holding |
| Conditions.EvaluateFromTrue | main.py:75-103 | a true result means every expression holds |
| Conditions.EvaluateFromFailure | main.py:75-103 | a failure is a lookup failure witnessed by an active expression of the list |
| Conditions.EvaluateFromUnknownCharacter | main.py:75-84 | an active expression naming a missing character makes the loop fail, whatever was accumulated |
| Conditions.EvaluateFromMissingParameter | main.py:75-102 | an active expression with a threshold whose parameter is missing raises, naming it, when the accumulator is true and every earlier expression holds |
| Conditions.EvaluateFromUnknownAttribute | main.py:75-102 | a missing-parameter failure means the accumulator was true and it is raised by a compared missing parameter in an expression all of whose predecessors hold |
| Conditions.MeetsConditionCorrect | main.py:71-103 | when every lookup succeeds the result is whether every active expression satisfies every present threshold |
| Conditions.MeetsConditionTrueIff | main.py:71-103 | the condition is met if and only if every active expression holds |
| Conditions.MeetsConditionFailure | main.py:71-103 | a failure is never silent: the condition is not resolvable and an active expression names the missing character or compared parameter |
| Conditions.MeetsConditionUnknownCharacter | main.py:75-84 | any active expression naming a missing character raises |
| Conditions.MeetsConditionMissingParameter | main.py:71-102 | a compared missing parameter raises, naming it, when every expression before it holds |
| Conditions.MeetsConditionUnknownAttribute | main.py:71-102 | conversely, a missing-parameter failure comes from an active expression comparing a missing parameter with every expression before it holding: after a failed comparison the lookup is skipped |
| Conditions.EqualsOnly | main.py:83-102 | an expression with only `equals` is met exactly when the value equals it |
| Conditions.UnknownParameterAfterFalse | main.py:84-102 | after a false comparison an unknown parameter is not looked up; before it, it raises |
| Reactions.FilterReactions | main.py:123-126 | every offered reaction is declared and its condition is met; no more are offered than declared |
| Reactions.PossibleReactions | main.py:121-127 | a missing encounter or an empty character store offers nothing; anything offered comes from an encounter |
| Reactions.KeptAppend | main.py:123-126 | the declarative filter distributes over concatenation, so declaration order is kept |
| Reactions.KeptMembers | main.py:123-126 | a reaction is kept exactly when it is declared and its condition holds |
| Reactions.FilterReactionsCorrect | main.py:123-126 | whenever the filter succeeds, including when a false comparison short-circuits a missing parameter, it returns exactly the kept reactions in declaration order |
| Reactions.FilterReactionsComplete | main.py:123-126 | every declared reaction whose condition is met is offered |
| Reactions.FilterReactionsFailure | main.py:123-126 | the filter fails if and only if some condition fails, and reports the first failing one |
| Reactions.GatedReactionExample | main.py:106-127 | with trust 5, a reaction gated on trust at least 10 is hidden and the ungated one is offered as number 1 |
| Choice.QuitIsExact | main.py:196 | "q" and "quit" quit; "Q", "QUIT", "Quit" and "q " do not |
| Choice.Prompt | main.py:193-208 | the prompt stops at the first line that is "q"/"quit" (quit) or parses to a number in 1..count (that number); every earlier line was rejected; end of input exactly when every line was rejected; never a number when nothing is offered |
| Choice.GetReaction | main.py:180-208 | the loop's answer and the number of lines it read are those of `Prompt` |
| Changes.PyIndex | main.py:237-238 | 1..length picks position n-1; 1-length..0 picks position n-1+length, counting from the end; any index found is in range; no index exactly below 1-length or above length |
| Changes.ApplyAppend | main.py:241-258 | applying two delta runs is applying the first, then the second unless the first stopped |
| Changes.ApplyKeepsShape | main.py:249-258 | no character and no attribute is created or removed |
| Changes.ApplySucceedsIff | main.py:249-258 | the update completes if and only if every delta names an existing character and attribute |
| Changes.ApplySums | main.py:249-255 | after a completed update each attribute is its old value plus the sum of the deltas aimed at it |
| Changes.ApplyStopsAt | main.py:249-258 | a failed update leaves the store as the deltas before the offending one made it, and reports that delta's missing key |
| Changes.FlattenAppend | main.py:241-248 | the deltas of two change lists are those of the first, then those of the second |
| Changes.FlattenSplit | main.py:241-248 | the deltas of a change list are those before change i, those of change i, then the rest |
| Changes.NamelessChangeIgnored | main.py:244-245 | a change without a name can be dropped without changing the deltas |
| Changes.ChangeExample | main.py:246-255 | the change {name: Alice, trust: -2} turns trust 5 into 3 |
| Changes.ApplyChange | main.py:244-258 | the store after one change, and its failure, are what `ApplyDeltas` gives for that change's deltas |
| Changes.ApplyChanges | main.py:240-258 | the store after the change list, and its failure, are what `ApplyDeltas` gives for the whole list |
| Changes.ProcessReactions | main.py:211-261 | no encounter or no reactions leave the store unchanged; an index out of Python's range raises with the store unchanged; otherwise the store is the chosen reaction's update, and the result is its failure or its next id and result text ("No result" by default) |
| Session.CompletedTurn | main.py:303-305 | a chosen offered reaction whose changes complete, with the move and next id appended, is a `Step` |
| Session.FailedTurn | main.py:303-304 | a chosen offered reaction whose changes raise is a `FailedStep`, and the failure is never an index error |
| Session.TakeTurn | main.py:303-305 | the move is appended; the turn is a `Step` on success and a `FailedStep` on failure; the store is the new state's characters |
| Session.RunLockstep | main.py:285-306 | every turn appends one move and one encounter id, and earlier histories are prefixes of later ones |
| Session.RunMovesInRange | main.py:298-303 | every recorded move is a 1-based position in the reactions offered when it was made |
| Session.RunPendingIsLastVisited | main.py:285-305 | after the first turn a saved state is pending on the id the previous turn appended |
| Session.MissingEncounterEndsRun | main.py:296-298 | a missing encounter document offers nothing, so no turn starts from it |
| Session.PlayTurn | main.py:295-306 | one iteration: either a completed step whose move is the number the prompt picked, with the prompt's lines and one more line consumed, or an ending: a failed filter or a quit at the prompt leaves the state as saved, end of input at the prompt or at "(Press Return)", or a raising change as a failed step from the picked move |
| Session.Play | main.py:270-306 | the saves start from the fresh or loaded state, are pending on truthy ids, form a run and their moves were read from the input lines in order; the story ends only on a falsy pending id; any other ending is the last iteration's ending from the last save and the input left then |
| RandomPlayer.RandomTurn | random_player.py:55-69 | one iteration: a completed step whose move is the draw over the number offered, or an ending: a failed filter or an empty offer leaves the state as saved, a raising change is a failed step from the drawn move |
| RandomPlayer.PlayRandom | random_player.py:25-69 | as `Play`, with every save pending on a truthy id and every move the draw for its turn over the number offered; an empty offer ends the session after its save |

## Left out

- Reading encounter and character documents (YAML), and reading and writing
  the save file (JSON): encounter documents are the map `Documents`, the
  characters and a loaded save are parameters, and the states the save file
  would hold are returned as the sequence `saves`.
- Terminal output: `display_encounter`, `display_reactions`, the prompt
  texts and the "(Press Return)" line. `ProcessReactions` returns the line
  it prints.
- Python's `int()` on a line of input is the parameter `parse`.
- The random number generator and its seeding; the draws are the parameter
  `choose`, required to lie in 1..count. A seed of 0 counts as no seed in the
  source (random_player.py:26), which is not modelled.
- Command-line parsing, logging, the handler for keyboard interrupts, and
  `graph_encounters.py`.
- Floating-point attribute values: attributes and deltas are integers.
- Characters are the map of their "p_values"; a character document without
  "p_values" (a `KeyError` in the source) is not modelled.
- An encounter document that is an empty mapping is falsy in Python and
  makes `process_reactions` return without effect; here every loaded
  document counts as present. The drivers never reach `process_reactions`
  with it, since it offers no reactions.
- Type errors from malformed documents (a non-numeric delta or threshold, a
  "change" that is not a list) are not modelled.
- RandomPlayer.PlayRandom: runs at most `maxTurns` turns and then reports
  `OutOfTurns`, because a story graph may cycle and the source's loop need
  not end.
- A change is a name and a sequence of (key, delta) pairs. A YAML mapping
  has distinct keys and its "name" key is never a delta
  (main.py:246-248); the model admits repeated keys and a delta keyed
  "name" and applies them in sequence order.
- A reaction whose "result" is present but null prints "None" in the
  source (main.py:238, 260); here a null result is an absent one and
  `ProcessReactions` returns "No result".
- Session.Play: assumes the loaded save holds every key; the source's
  `save_data.get` would yield `None` for a missing one.
