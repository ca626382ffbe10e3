/** The rule records that both wheels, the rule panel, the item sidebar and
    the application pass around. */
module Rules {
  import opened Wrappers

  /** A rule as loaded from the rule catalogues. `weight` is optional (the
      earlier wheel defaults it), `restrict` and `reduce` map item ids to
      quantities; an absent map behaves like an empty one. */
  datatype Rule = Rule(
    id: int,
    name: string,
    summary: string,
    description: Option<string>,
    weight: Option<real>,
    active: bool,
    restrict: map<int, int>,
    reduce: map<int, int>)

  /** A value that stands where a rule is expected: `undefined` or `null`
      (`Absent`), a freshly built empty object `{}`, or a rule. */
  datatype RuleRef = Absent | EmptyObject | Ref(rule: Rule)

  /** JavaScript `===` between two such values. Rules are compared by
      content; a `{}` is a new object every time it is built, so it is never
      identical to anything. */
  predicate SameRef(a: RuleRef, b: RuleRef)
  {
    (a.Absent? && b.Absent?) || (a.Ref? && b.Ref? && a.rule == b.rule)
  }

  /** `value?.id`: only a rule has an id. */
  function IdOf(a: RuleRef): Option<int>
  {
    if a.Ref? then Some(a.rule.id) else None
  }

  /** `rules.map(rule => ({ ...rule, active: flag }))`. */
  function WithActive(rules: seq<Rule>, flag: bool): (r: seq<Rule>)
    ensures |r| == |rules|
    ensures forall i :: 0 <= i < |r| ==> r[i].active == flag
    ensures forall i :: 0 <= i < |r| ==> r[i].(active := rules[i].active) == rules[i]
  {
    seq(|rules|, i requires 0 <= i < |rules| => rules[i].(active := flag))
  }
}
