/** Reaction processing (`process_reactions`): the chosen reaction's
    changes add signed deltas to the character store in place, and the
    reaction names the next encounter. `ApplyDeltas` is the value-level
    specification of the in-place update; the lemmas below say what it
    does to the store. */
module Changes {
  import opened Story

  /** The character store, updated in place by `ProcessReactions`. */
  class CharacterStore {
    var characters: Characters

    constructor (initial: Characters)
      ensures characters == initial
    {
      characters := initial;
    }
  }

  /** One attribute update: add `amount` to `attribute` of character `name`. */
  datatype Delta = Delta(name: string, attribute: string, amount: int)

  /** The effect of a run of deltas: the store after it, and the lookup
      failure that stopped it, if any. */
  datatype Update = Update(characters: Characters, failure: Option<Failure>)

  /** The deltas of one change in document order. A change whose "name" is
      missing or empty is skipped. */
  function DeltasOf(c: Change): seq<Delta> {
    if Truthy(c.name) then seq(|c.deltas|, i requires 0 <= i < |c.deltas| => Delta(c.name.value, c.deltas[i].0, c.deltas[i].1))
    else []
  }

  /** The deltas of a change list, change after change. */
  function Flatten(changes: seq<Change>): seq<Delta> {
    if changes == [] then [] else DeltasOf(changes[0]) + Flatten(changes[1..])
  }

  /** A reaction without a "change" key changes nothing. */
  function ChangesOf(r: Reaction): seq<Change> {
    r.change.GetOr([])
  }

  predicate Applicable(characters: Characters, d: Delta) {
    d.name in characters && d.attribute in characters[d.name]
  }

  /** The `KeyError` of a delta that is not applicable: the character is
      looked up before the attribute. */
  function Missing(characters: Characters, d: Delta): Failure {
    if d.name !in characters then UnknownCharacter(d.name) else UnknownAttribute(d.name, d.attribute)
  }

  function Bump(characters: Characters, d: Delta): Characters
    requires Applicable(characters, d)
  {
    characters[d.name := characters[d.name][d.attribute := characters[d.name][d.attribute] + d.amount]]
  }

  /** Applies the deltas in order. The first delta whose character or
      attribute is missing stops the run; what was applied before it stays. */
  function ApplyDeltas(characters: Characters, ds: seq<Delta>): Update {
    if ds == [] then Update(characters, None)
    else if !Applicable(characters, ds[0]) then Update(characters, Some(Missing(characters, ds[0])))
    else ApplyDeltas(Bump(characters, ds[0]), ds[1..])
  }

  /** The sum of the deltas aimed at one attribute of one character. */
  function Total(ds: seq<Delta>, name: string, attribute: string): int {
    if ds == [] then 0
    else (if ds[0].name == name && ds[0].attribute == attribute then ds[0].amount else 0)
         + Total(ds[1..], name, attribute)
  }

  /** Same characters, and each with the same attribute names. */
  predicate SameShape(s: Characters, t: Characters) {
    s.Keys == t.Keys && forall c :: c in s ==> s[c].Keys == t[c].Keys
  }

  /** Python's `reactions[response_num - 1]`: a negative index counts from
      the end; anything else outside the list raises `IndexError`. */
  function PyIndex(responseNum: int, length: nat): (r: Option<nat>)
    ensures 1 <= responseNum <= length ==> r == Some(responseNum - 1)
    ensures 1 - length <= responseNum <= 0 ==> r == Some(responseNum - 1 + length)
    ensures r.Some? ==> r.value < length
    ensures r.None? <==> responseNum < 1 - length || length < responseNum
  {
    var index := responseNum - 1;
    var len: int := length;
    if 0 <= index < len then Some(index)
    else if -len <= index < 0 then Some(index + len)
    else None
  }

  // ---------------------------------------------------------------------
  // Properties of ApplyDeltas

  /** Running two lists of deltas is running the first, then, unless it
      stopped, the second from where it left the store. */
  lemma {:induction false} ApplyAppend(s: Characters, a: seq<Delta>, b: seq<Delta>)
    ensures var u := ApplyDeltas(s, a);
            ApplyDeltas(s, a + b) == if u.failure.Some? then u else ApplyDeltas(u.characters, b)
  {
    if a == [] {
      assert a + b == b;
    } else {
      assert (a + b)[0] == a[0] && (a + b)[1..] == a[1..] + b;
      if Applicable(s, a[0]) {
        ApplyAppend(Bump(s, a[0]), a[1..], b);
      }
    }
  }

  /** No character and no attribute is ever created or removed. */
  lemma {:induction false} ApplyKeepsShape(s: Characters, ds: seq<Delta>)
    ensures SameShape(s, ApplyDeltas(s, ds).characters)
  {
    if ds != [] && Applicable(s, ds[0]) {
      var t := Bump(s, ds[0]);
      ApplyKeepsShape(t, ds[1..]);
      assert SameShape(s, t);
    }
  }

  /** The run completes exactly when every delta names an existing
      character and one of its existing attributes. */
  lemma {:induction false} ApplySucceedsIff(s: Characters, ds: seq<Delta>)
    ensures ApplyDeltas(s, ds).failure.None? <==> forall i :: 0 <= i < |ds| ==> Applicable(s, ds[i])
  {
    if ds != [] && Applicable(s, ds[0]) {
      var t := Bump(s, ds[0]);
      ApplySucceedsIff(t, ds[1..]);
      assert SameShape(s, t);
      assert forall i :: 0 < i < |ds| ==> ds[i] == ds[1..][i - 1];
      assert forall d :: Applicable(s, d) <==> Applicable(t, d);
    }
  }

  /** After a completed run every attribute holds its old value plus the
      sum of the deltas aimed at it: repeated keys accumulate, and an
      attribute no delta names is unchanged. */
  lemma {:induction false} ApplySums(s: Characters, ds: seq<Delta>)
    requires ApplyDeltas(s, ds).failure.None?
    ensures forall c, a :: c in s && a in s[c] ==>
              c in ApplyDeltas(s, ds).characters && a in ApplyDeltas(s, ds).characters[c]
              && ApplyDeltas(s, ds).characters[c][a] == s[c][a] + Total(ds, c, a)
  {
    ApplyKeepsShape(s, ds);
    if ds != [] {
      var t := Bump(s, ds[0]);
      ApplySums(t, ds[1..]);
    }
  }

  /** A run stopped by a missing character or attribute leaves the store
      exactly as the deltas before the offending one made it. */
  lemma {:induction false} ApplyStopsAt(s: Characters, ds: seq<Delta>)
    requires ApplyDeltas(s, ds).failure.Some?
    ensures var u := ApplyDeltas(s, ds);
            exists k :: 0 <= k < |ds|
              && ApplyDeltas(s, ds[..k]) == Update(u.characters, None)
              && !Applicable(u.characters, ds[k])
              && u.failure == Some(Missing(u.characters, ds[k]))
  {
    var u := ApplyDeltas(s, ds);
    if Applicable(s, ds[0]) {
      var t := Bump(s, ds[0]);
      ApplyStopsAt(t, ds[1..]);
      var k :| 0 <= k < |ds[1..]|
        && ApplyDeltas(t, ds[1..][..k]) == Update(u.characters, None)
        && !Applicable(u.characters, ds[1..][k])
        && u.failure == Some(Missing(u.characters, ds[1..][k]));
      assert ds[..k + 1][1..] == ds[1..][..k];
      assert ApplyDeltas(s, ds[..k + 1]) == Update(u.characters, None);
      assert ds[k + 1] == ds[1..][k];
    } else {
      assert ApplyDeltas(s, ds[..0]) == Update(s, None);
    }
  }

  // ---------------------------------------------------------------------
  // Properties of the change lists

  lemma {:induction false} FlattenAppend(a: seq<Change>, b: seq<Change>)
    ensures Flatten(a + b) == Flatten(a) + Flatten(b)
  {
    if a == [] {
      assert a + b == b;
    } else {
      assert (a + b)[0] == a[0] && (a + b)[1..] == a[1..] + b;
      FlattenAppend(a[1..], b);
    }
  }

  /** A change list is the changes before `i`, change `i`, and the rest. */
  lemma FlattenSplit(changes: seq<Change>, i: nat)
    requires i < |changes|
    ensures Flatten(changes) == Flatten(changes[..i]) + (DeltasOf(changes[i]) + Flatten(changes[i + 1..]))
  {
    var tail := changes[i..];
    assert changes == changes[..i] + tail;
    FlattenAppend(changes[..i], tail);
    assert tail[0] == changes[i] && tail[1..] == changes[i + 1..];
  }

  /** A change without a character name can be dropped without changing
      what a change list does. */
  lemma NamelessChangeIgnored(changes: seq<Change>, i: nat)
    requires i < |changes| && !Truthy(changes[i].name)
    ensures Flatten(changes) == Flatten(changes[..i] + changes[i + 1..])
  {
    FlattenSplit(changes, i);
    FlattenAppend(changes[..i], changes[i + 1..]);
    var rest := Flatten(changes[i + 1..]);
    assert DeltasOf(changes[i]) + rest == rest;
  }

  /** The example of the change {name: Alice, trust: -2} applied to a trust of 5. */
  lemma ChangeExample()
    ensures ApplyDeltas(map["Alice" := map["trust" := 5]], Flatten([Change(Some("Alice"), [("trust", -2)])]))
            == Update(map["Alice" := map["trust" := 3]], None)
  {
    var change := Change(Some("Alice"), [("trust", -2)]);
    var d := Delta("Alice", "trust", -2);
    assert DeltasOf(change) == [d];
    assert [change][1..] == [];
    assert Flatten([change]) == [d] + Flatten([]);
    assert [d][1..] == [];
    var s := map["Alice" := map["trust" := 5]];
    assert Applicable(s, d);
    assert map["trust" := 5]["trust" := 3] == map["trust" := 3];
    assert s["Alice" := map["trust" := 3]] == map["Alice" := map["trust" := 3]];
    assert Bump(s, d) == map["Alice" := map["trust" := 3]];
    assert ApplyDeltas(s, [d]) == ApplyDeltas(Bump(s, d), []);
  }

  // ---------------------------------------------------------------------
  // Steps of the in-place loop

  /** The deltas from change `i` on: those of change `i`, then the rest. */
  lemma EnterChange(changes: seq<Change>, i: nat)
    requires i < |changes|
    ensures Flatten(changes[i..]) == DeltasOf(changes[i]) + Flatten(changes[i + 1..])
  {
  }

  /** Running the deltas from `j` on is one delta, then the rest. */
  lemma NextDelta(cur: Characters, ds: seq<Delta>, j: nat)
    requires j < |ds|
    ensures ApplyDeltas(cur, ds[j..])
            == if Applicable(cur, ds[j]) then ApplyDeltas(Bump(cur, ds[j]), ds[j + 1..])
               else Update(cur, Some(Missing(cur, ds[j])))
  {
  }

  /** The inner loop of `process_reactions`: adds each delta of one change
      to the store in place, stopping at the first missing character or
      attribute. A change without a name is skipped. */
  method ApplyChange(change: Change, store: CharacterStore) returns (failure: Option<Failure>)
    modifies store
    ensures Update(store.characters, failure) == ApplyDeltas(old(store.characters), DeltasOf(change))
  {
    if !Truthy(change.name) {
      return None;
    }
    var name := change.name.value;
    ghost var ds := DeltasOf(change);
    ghost var goal := ApplyDeltas(store.characters, ds);
    assert ds[0..] == ds;
    var j := 0;
    while j < |change.deltas|
      invariant j <= |change.deltas|
      invariant goal == ApplyDeltas(store.characters, ds[j..])
    {
      var key, amount := change.deltas[j].0, change.deltas[j].1;
      NextDelta(store.characters, ds, j);
      if name !in store.characters {
        return Some(UnknownCharacter(name));
      }
      if key !in store.characters[name] {
        return Some(UnknownAttribute(name, key));
      }
      store.characters := store.characters[name := store.characters[name][key := store.characters[name][key] + amount]];
      j := j + 1;
    }
    assert ds[j..] == [];
    return None;
  }

  /** The outer loop of `process_reactions`: the changes in order, stopping
      at the first failure with everything before it applied. */
  method ApplyChanges(changes: seq<Change>, store: CharacterStore) returns (failure: Option<Failure>)
    modifies store
    ensures Update(store.characters, failure) == ApplyDeltas(old(store.characters), Flatten(changes))
  {
    ghost var goal := ApplyDeltas(store.characters, Flatten(changes));
    assert changes[0..] == changes;
    var i := 0;
    while i < |changes|
      invariant i <= |changes|
      invariant goal == ApplyDeltas(store.characters, Flatten(changes[i..]))
    {
      ghost var cur := store.characters;
      EnterChange(changes, i);
      ApplyAppend(cur, DeltasOf(changes[i]), Flatten(changes[i + 1..]));
      failure := ApplyChange(changes[i], store);
      if failure.Some? {
        return;
      }
      i := i + 1;
    }
    assert changes[i..] == [];
    return None;
  }

  // ---------------------------------------------------------------------
  // process_reactions

  /** What `process_reactions` returns and prints: the next encounter
      identifier, and the line it prints (the reaction's result). */
  datatype Processed = Processed(next: Option<string>, shown: Option<string>)

  /** `process_reactions`: with an encounter and a non-empty list, picks the
      reaction `responseNum` (1-based, Python indexing), applies its changes
      to the store in place and returns the encounter it leads to. A
      missing character or attribute raises after the earlier deltas were
      applied. */
  method ProcessReactions(responseNum: int, reactions: seq<Reaction>, encounter: Option<Encounter>,
                          store: CharacterStore)
    returns (r: Result<Processed, Failure>)
    modifies store
    ensures encounter.None? ==>
              r == Success(Processed(None, None)) && store.characters == old(store.characters)
    ensures encounter.Some? && reactions == [] ==>
              r == Success(Processed(None, Some("Nothing to react to")))
              && store.characters == old(store.characters)
    ensures encounter.Some? && reactions != [] && PyIndex(responseNum, |reactions|).None? ==>
              r == Failure(IndexOutOfRange(responseNum)) && store.characters == old(store.characters)
    ensures encounter.Some? && reactions != [] && PyIndex(responseNum, |reactions|).Some? ==>
              var chosen := reactions[PyIndex(responseNum, |reactions|).value];
              var update := ApplyDeltas(old(store.characters), Flatten(ChangesOf(chosen)));
              store.characters == update.characters
              && r == if update.failure.Some? then Failure(update.failure.value)
                      else Success(Processed(chosen.encounter, Some(chosen.result.GetOr("No result"))))
  {
    if encounter.None? {
      return Success(Processed(None, None));
    }
    if reactions == [] {
      return Success(Processed(None, Some("Nothing to react to")));
    }
    var index := responseNum - 1;
    if index < 0 {
      index := index + |reactions|;
    }
    if !(0 <= index < |reactions|) {
      return Failure(IndexOutOfRange(responseNum));
    }
    var chosen := reactions[index];
    var failure := ApplyChanges(ChangesOf(chosen), store);
    if failure.Some? {
      return Failure(failure.value);
    }
    return Success(Processed(chosen.encounter, Some(chosen.result.GetOr("No result"))));
  }
}
