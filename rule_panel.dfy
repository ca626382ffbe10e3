/** The rule panel's handlers: each builds a new rule list for the `change`
    event and leaves the panel's own list alone (the functions here take
    the list as a value and return a new one). */
module RulePanel {
  import opened Rules

  /** `handleAll`: every rule active, nothing else changed. */
  function HandleAll(rules: seq<Rule>): (r: seq<Rule>)
    ensures |r| == |rules|
    ensures forall i :: 0 <= i < |r| ==> r[i].active
    ensures forall i :: 0 <= i < |r| ==> r[i].(active := rules[i].active) == rules[i]
  {
    WithActive(rules, true)
  }

  /** `handleNone`: every rule inactive, nothing else changed. */
  function HandleNone(rules: seq<Rule>): (r: seq<Rule>)
    ensures |r| == |rules|
    ensures forall i :: 0 <= i < |r| ==> !r[i].active
    ensures forall i :: 0 <= i < |r| ==> r[i].(active := rules[i].active) == rules[i]
  {
    WithActive(rules, false)
  }

  /** `handleToggleRule` for the list entry at `index`: that rule's
      `active` flips, every other entry and the length stay. */
  function HandleToggleRule(rules: seq<Rule>, index: nat): (r: seq<Rule>)
    requires index < |rules|
    ensures |r| == |rules|
    ensures r[index].active == !rules[index].active
    ensures r[index].(active := rules[index].active) == rules[index]
    ensures forall i :: 0 <= i < |r| && i != index ==> r[i] == rules[i]
  {
    rules[..index] + [rules[index].(active := !rules[index].active)] + rules[index + 1..]
  }

  /** Toggling the same entry twice gives the list back. */
  lemma ToggleTwice(rules: seq<Rule>, index: nat)
    requires index < |rules|
    ensures HandleToggleRule(HandleToggleRule(rules, index), index) == rules
  {
    var once := HandleToggleRule(rules, index);
    var twice := HandleToggleRule(once, index);
    assert forall i :: 0 <= i < |rules| ==> twice[i] == rules[i];
  }

  /** Toggles of two different entries commute. */
  lemma TogglesCommute(rules: seq<Rule>, i: nat, j: nat)
    requires i < |rules| && j < |rules|
    ensures HandleToggleRule(HandleToggleRule(rules, i), j)
      == HandleToggleRule(HandleToggleRule(rules, j), i)
  {
    var a := HandleToggleRule(HandleToggleRule(rules, i), j);
    var b := HandleToggleRule(HandleToggleRule(rules, j), i);
    assert forall k :: 0 <= k < |rules| ==> a[k] == b[k];
  }

  /** `handleAll` and `handleNone` are idempotent, and each undoes the
      other's effect on `active` alone. */
  lemma AllNoneIdempotent(rules: seq<Rule>)
    ensures HandleAll(HandleAll(rules)) == HandleAll(rules)
    ensures HandleNone(HandleNone(rules)) == HandleNone(rules)
    ensures HandleAll(HandleNone(rules)) == HandleAll(rules)
    ensures HandleNone(HandleAll(rules)) == HandleNone(rules)
  {
    var all, none := HandleAll(rules), HandleNone(rules);
    assert forall i :: 0 <= i < |rules| ==> HandleAll(all)[i] == all[i];
    assert forall i :: 0 <= i < |rules| ==> HandleNone(none)[i] == none[i];
    assert forall i :: 0 <= i < |rules| ==> HandleAll(none)[i] == all[i];
    assert forall i :: 0 <= i < |rules| ==> HandleNone(all)[i] == none[i];
  }

  /** On a list that is all active, `handleAll` changes nothing. */
  lemma AllOnActive(rules: seq<Rule>)
    requires forall i :: 0 <= i < |rules| ==> rules[i].active
    ensures HandleAll(rules) == rules
  {
    assert forall i :: 0 <= i < |rules| ==> HandleAll(rules)[i] == rules[i];
  }
}
