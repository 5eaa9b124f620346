/** The documents the story engine works on: characters with numeric
    attributes ("p_values"), encounters, their reactions, the conditions
    that gate a reaction and the changes it applies. Optional keys of the
    YAML documents are `Option` fields; the failures the engine raises
    (`KeyError`, `IndexError`) are `Failure` values. */
module Story {

  datatype Option<+T> = None | Some(value: T) {
    function GetOr(default: T): T {
      match this
      case Some(v) => v
      case None => default
    }
  }

  datatype Result<+R, +E> = Success(value: R) | Failure(error: E)

  /** Python's truth value of an optional string key: present and non-empty. */
  predicate Truthy(s: Option<string>) {
    s.Some? && s.value != ""
  }

  /** The character store: character name -> attribute name -> value. */
  type Characters = map<string, map<string, int>>

  /** Why an evaluation or an update raised. */
  datatype Failure =
    | UnknownCharacter(name: string)                   // characters[name] raised KeyError
    | UnknownAttribute(name: string, attribute: string) // p_values[attribute] raised KeyError
    | IndexOutOfRange(responseNum: int)                // reactions[response_num - 1] raised IndexError

  /** One comparison of a condition; every threshold is optional. */
  datatype Expression = Expression(
    character: Option<string>,
    parameter: Option<string>,
    greaterThan: Option<int>,
    lessThan: Option<int>,
    greaterThanEqual: Option<int>,
    lessThanEqual: Option<int>,
    equals: Option<int>)

  /** A change names a character (the "name" key) and carries the other keys
      of the change document, in document order, as attribute deltas. */
  datatype Change = Change(name: Option<string>, deltas: seq<(string, int)>)

  datatype Reaction = Reaction(
    text: Option<string>,
    condition: Option<seq<Expression>>,
    change: Option<seq<Change>>,
    result: Option<string>,
    encounter: Option<string>)

  /** A loaded encounter document. A missing file, or one that loads as null, is `None`
      wherever an `Option<Encounter>` is expected; a document without a
      "reactions" key has no reactions. */
  datatype Encounter = Encounter(
    title: Option<string>,
    description: Option<string>,
    reactions: seq<Reaction>)

  /** The encounter documents available to the loader, by identifier. */
  type Documents = map<string, Encounter>

  /** Loading an encounter by identifier; a missing document yields `None`. */
  function LoadEncounter(docs: Documents, id: string): Option<Encounter> {
    if id in docs then Some(docs[id]) else None
  }
}
