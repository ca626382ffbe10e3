/** The current spinner wheel: weighted sectors laid out from a start
    angle of one full turn, a pointer lookup by walking the sectors, a
    settle that centres the wheel on a rule, and the spin physics with a
    `spinning` flag. Rotation is in turns throughout. */
module SpinnerWheel {
  import opened Wrappers
  import opened Rules
  import Sectors
  import Physics
  import Reals

  /** The angle the sector walk starts from: 2*pi, one turn. */
  const WalkStart: real := 1.0

  /** This wheel reads `weight` directly, so every rule needs one and none
      may be negative; a non-empty list needs a positive total. */
  ghost predicate Weighted(rules: seq<Rule>)
  {
    && (forall i :: 0 <= i < |rules| ==> rules[i].weight.Some? && rules[i].weight.value >= 0.0)
    && (|rules| > 0 ==> Sectors.Total(Weights(rules)) > 0.0)
  }

  function Weights(rules: seq<Rule>): (ws: seq<real>)
    requires forall i :: 0 <= i < |rules| ==> rules[i].weight.Some?
    ensures |ws| == |rules| && forall i :: 0 <= i < |ws| ==> ws[i] == rules[i].weight.value
  {
    seq(|rules|, i requires 0 <= i < |rules| => rules[i].weight.value)
  }

  /** `rules.reduce((sum, { weight }) => sum + weight, 0)`: never negative. */
  function TotalWeight(rules: seq<Rule>): (t: real)
    requires forall i :: 0 <= i < |rules| ==> rules[i].weight.Some? && rules[i].weight.value >= 0.0
    ensures t >= 0.0
  {
    Sectors.PrefixMonotone(Weights(rules), 0, |rules|);
    Sectors.Total(Weights(rules))
  }

  /** The total weight is at least each rule's weight, so it is positive as
      soon as one rule has a positive weight. */
  lemma TotalWeightCovers(rules: seq<Rule>, i: nat)
    requires forall i :: 0 <= i < |rules| ==> rules[i].weight.Some? && rules[i].weight.value >= 0.0
    requires i < |rules|
    ensures TotalWeight(rules) >= rules[i].weight.value
  {
    Sectors.PrefixCovers(Weights(rules), i, |rules|);
  }

  /** Each rule's sector width in turns: its share of the total weight.
      The widths form a wheel of exactly one turn. */
  function Widths(rules: seq<Rule>): (ws: seq<real>)
    requires Weighted(rules) && |rules| > 0
    ensures |ws| == |rules| && Sectors.IsWheel(ws) && Sectors.Total(ws) == 1.0
    ensures forall i :: 0 <= i < |ws| ==> ws[i] == rules[i].weight.value / TotalWeight(rules)
  {
    var t := TotalWeight(rules);
    Sectors.ScaledWheel(Weights(rules), t);
    Reals.DivSelf(t);
    Sectors.Scaled(Weights(rules), t)
  }

  /** The edge between sectors `k - 1` and `k` sits at the weight share of
      the first `k` rules. */
  lemma WidthsPrefix(rules: seq<Rule>, k: nat)
    requires Weighted(rules) && |rules| > 0 && k <= |rules|
    ensures Sectors.Prefix(Widths(rules), k) == Sectors.Prefix(Weights(rules), k) / TotalWeight(rules)
  {
    Sectors.PrefixScaled(Weights(rules), TotalWeight(rules), k);
  }

  /** What `calculateCurrentRule` yields, defined without walking: `{}` for
      an absent or empty list, `undefined` when the rotation lies beyond
      the start angle (the walk never moves), and otherwise the rule whose
      sector lies `WalkStart - rotation` turns down the walk. */
  function CurrentRuleAt(rules: Option<seq<Rule>>, rotation: real): RuleRef
    requires rules.Some? ==> Weighted(rules.value)
  {
    if rules.None? || |rules.value| == 0 then EmptyObject
    else if rotation > WalkStart then Absent
    else
      Ref(rules.value[Sectors.SectorIndex(Widths(rules.value), WalkStart - rotation)])
  }

  /** `calculateCurrentRule`: walk the sectors from one full turn,
      subtracting widths cyclically while the angle is still at or above
      the rotation. It terminates for every rotation and agrees with
      `CurrentRuleAt`. */
  method CalculateCurrentRule(rules: Option<seq<Rule>>, rotation: real) returns (r: RuleRef)
    requires rules.Some? ==> Weighted(rules.value)
    ensures r == CurrentRuleAt(rules, rotation)
    ensures r.Ref? ==> rules.Some? && r.rule in rules.value
  {
    if rules.None? || |rules.value| == 0 {
      return EmptyObject;
    }
    var rs := rules.value;
    var total := TotalWeight(rs);
    ghost var ws := Widths(rs);
    ghost var q: nat := 0;
    ghost var passes := ((WalkStart - rotation) / Sectors.Total(ws)).Floor;
    var angle := WalkStart;
    var ruleIndex := -1;
    while angle >= rotation
      invariant -1 <= ruleIndex < |rs|
      invariant ruleIndex == -1 ==> q == 0
      invariant angle == Sectors.WalkAngle(ws, WalkStart, q, ruleIndex)
      invariant ruleIndex >= 0 ==> angle + ws[ruleIndex] >= rotation
      decreases passes - q, |rs| - ruleIndex
    {
      Sectors.WalkAdvance(ws, WalkStart, rotation, q, ruleIndex);
      if ruleIndex == |rs| - 1 {
        q := q + 1;
      }
      ruleIndex := (ruleIndex + 1) % |rs|;
      assert ws[ruleIndex] == rs[ruleIndex].weight.value / total;
      angle := angle - rs[ruleIndex].weight.value / total;
    }
    if ruleIndex == -1 {
      return Absent;
    }
    Sectors.WalkStops(ws, WalkStart, rotation, q, ruleIndex);
    ReadAt(rs, rotation);
    r := Ref(rs[ruleIndex]);
  }

  /** For a rotation inside the first turn, rule `k` is under the pointer
      exactly when the rotation lies in `(1 - S(k+1)/T, 1 - S(k)/T]`, where
      `S(k)` sums the first `k` weights: a rotation on an edge goes to the
      later rule, because the walk continues while the angle is `>=`. */
  lemma SectorBounds(rules: seq<Rule>, rotation: real, k: nat)
    requires Weighted(rules) && |rules| > 0 && k < |rules|
    requires 0.0 < rotation <= WalkStart
    ensures var ws, t := Weights(rules), TotalWeight(rules);
      Sectors.SectorIndex(Widths(rules), WalkStart - rotation) == k <==>
        1.0 - Sectors.Prefix(ws, k + 1) / t < rotation <= 1.0 - Sectors.Prefix(ws, k) / t
  {
    WidthsPrefix(rules, k);
    WidthsPrefix(rules, k + 1);
    Sectors.SectorArc(Widths(rules), 0, k, WalkStart - rotation);
  }

  /** `rules.findIndex(({ id }) => id === id)`: the first position holding
      that id, or -1. */
  function FindIndex(rules: seq<Rule>, id: int): (k: int)
    ensures -1 <= k < |rules|
    ensures k >= 0 ==> rules[k].id == id && forall j :: 0 <= j < k ==> rules[j].id != id
    ensures k == -1 ==> forall j :: 0 <= j < |rules| ==> rules[j].id != id
  {
    if |rules| == 0 then -1
    else if rules[0].id == id then 0
    else
      var k := FindIndex(rules[1..], id);
      if k == -1 then -1 else k + 1
  }

  /** The rotation `rotateToRule` sets, in turns:
      `(-weightToMove - target.weight / 2) / totalWeight`, where
      `weightToMove` sums the rules before the target's position. For an
      id not in the list `findIndex` gives -1 and `slice(0, -1)` keeps every
      rule but the last. */
  function SettleRotation(rules: seq<Rule>, target: Rule): real
    requires Weighted(rules) && |rules| > 0 && target.weight.Some?
  {
    var k := FindIndex(rules, target.id);
    var before := if k >= 0 then rules[..k] else rules[..|rules| - 1];
    SettleAngle(TotalWeight(before), target.weight.value, TotalWeight(rules))
  }

  /** The settle formula on its three numbers, in turns. */
  function SettleAngle(weightToMove: real, weight: real, totalWeight: real): real
    requires totalWeight > 0.0
  {
    (-weightToMove - weight / 2.0) / totalWeight
  }

  /** With unique ids, `findIndex` finds every rule of the list at its own
      position. */
  lemma FindIndexUnique(rules: seq<Rule>, k: nat)
    requires k < |rules|
    requires forall i, j :: 0 <= i < j < |rules| ==> rules[i].id != rules[j].id
    ensures FindIndex(rules, rules[k].id) == k
  {
  }

  /** The total weight of the first `k` rules is the `k`-th prefix sum. */
  lemma TotalWeightTake(rules: seq<Rule>, k: nat)
    requires Weighted(rules) && k <= |rules|
    ensures TotalWeight(rules[..k]) == Sectors.Prefix(Weights(rules), k)
  {
    var ws := Weights(rules);
    assert Weights(rules[..k]) == ws[..k];
    Sectors.PrefixIsTotalOfTake(ws, k);
  }

  /** Settling on a rule that `findIndex` finds at position `k` moves past
      the weights of the rules before it and half its own. */
  lemma SettleRotationAt(rules: seq<Rule>, k: nat)
    requires Weighted(rules) && k < |rules| && FindIndex(rules, rules[k].id) == k
    ensures SettleRotation(rules, rules[k])
      == SettleAngle(Sectors.Prefix(Weights(rules), k), rules[k].weight.value, TotalWeight(rules))
  {
    var w, t := rules[k].weight.value, TotalWeight(rules);
    assert SettleRotation(rules, rules[k]) == SettleAngle(TotalWeight(rules[..k]), w, t);
    TotalWeightTake(rules, k);
  }

  /** With unique ids, settling on rule `k` moves past the weights of the
      rules before it and half its own. */
  lemma SettleRotationOf(rules: seq<Rule>, k: nat)
    requires Weighted(rules) && k < |rules|
    requires forall i, j :: 0 <= i < j < |rules| ==> rules[i].id != rules[j].id
    ensures SettleRotation(rules, rules[k])
      == SettleAngle(Sectors.Prefix(Weights(rules), k), rules[k].weight.value, TotalWeight(rules))
  {
    FindIndexUnique(rules, k);
    SettleRotationAt(rules, k);
  }

  /** The centre of sector `k` lies strictly inside its arc, half a width
      past its near edge. */
  lemma CentreLands(ws: seq<real>, k: nat, y: real)
    requires Sectors.IsWheel(ws) && Sectors.Total(ws) == 1.0 && k < |ws| && ws[k] > 0.0
    requires y == 1.0 + Sectors.Prefix(ws, k) + ws[k] / 2.0
    ensures y >= 0.0 && Sectors.SectorIndex(ws, y) == k
  {
    Sectors.PrefixMonotone(ws, 0, k);
    assert Sectors.Lands(ws, y, 1, k);
    Sectors.SectorIndexExact(ws, y, 1, k);
  }

  /** For a sector that starts `s` into the total `t` and is `w` wide, the
      settle angle lies strictly inside `(-1, 0)`, and seen from the walk's
      start it sits half a width past the sector's near edge. */
  lemma SettleAngleCentred(s: real, w: real, t: real)
    requires t > 0.0 && s >= 0.0 && w > 0.0 && s + w <= t
    ensures -1.0 < SettleAngle(s, w, t) < 0.0
    ensures WalkStart - SettleAngle(s, w, t) == 1.0 + s / t + (w / t) / 2.0
  {
    Reals.NegativeShare(-s - w / 2.0, t);
    Reals.SplitShare(s, w, t);
  }

  /** The settle angle of the sector at position `k` lies strictly inside
      `(-1, 0)` and the lookup there reads position `k`. */
  lemma CentreRoundTrip(rules: seq<Rule>, k: nat, rho: real)
    requires Weighted(rules) && k < |rules| && rules[k].weight.value > 0.0
    requires rho == SettleAngle(Sectors.Prefix(Weights(rules), k), rules[k].weight.value, TotalWeight(rules))
    ensures -1.0 < rho < 0.0
    ensures CurrentRuleAt(Some(rules), rho) == Ref(rules[k])
  {
    var w, s, t := rules[k].weight.value, Sectors.Prefix(Weights(rules), k), TotalWeight(rules);
    SectorWithinTotal(rules, k);
    SettleAngleCentred(s, w, t);
    LandsOnCentre(rules, k, WalkStart - rho);
    ReadAt(rules, rho);
  }

  /** The rules before `k` and rule `k` itself weigh no more than all of
      them. */
  lemma SectorWithinTotal(rules: seq<Rule>, k: nat)
    requires Weighted(rules) && k < |rules|
    ensures var s := Sectors.Prefix(Weights(rules), k);
      s >= 0.0 && s + rules[k].weight.value <= TotalWeight(rules)
  {
    Sectors.SectorWithin(Weights(rules), k);
  }

  /** On a non-empty list and a rotation not beyond the start angle the
      lookup reads the rule `SectorIndex` names. */
  lemma ReadAt(rules: seq<Rule>, rotation: real)
    requires Weighted(rules) && |rules| > 0 && rotation <= WalkStart
    ensures CurrentRuleAt(Some(rules), rotation)
      == Ref(rules[Sectors.SectorIndex(Widths(rules), WalkStart - rotation)])
  {
  }

  /** Half a width past the near edge of rule `k`'s sector, one pass down
      the walk, the lookup finds rule `k`. */
  lemma LandsOnCentre(rules: seq<Rule>, k: nat, y: real)
    requires Weighted(rules) && k < |rules| && rules[k].weight.value > 0.0
    requires var w, t := rules[k].weight.value, TotalWeight(rules);
      y == 1.0 + Sectors.Prefix(Weights(rules), k) / t + (w / t) / 2.0
    ensures y >= 0.0 && Sectors.SectorIndex(Widths(rules), y) == k
  {
    var w, t := rules[k].weight.value, TotalWeight(rules);
    WidthsPrefix(rules, k);
    var wd := Widths(rules);
    assert wd[k] == w / t;
    Reals.DivPositive(w, t);
    CentreLands(wd, k, y);
  }

  /** Settling on a rule of the list centres its sector under the pointer:
      the rotation lies strictly inside `(-1, 0)`, and looking the rule up
      there gives the rule back. */
  lemma SettleRoundTrip(rules: seq<Rule>, k: nat)
    requires Weighted(rules) && k < |rules| && rules[k].weight.value > 0.0
    requires forall i, j :: 0 <= i < j < |rules| ==> rules[i].id != rules[j].id
    ensures -1.0 < SettleRotation(rules, rules[k]) < 0.0
    ensures CurrentRuleAt(Some(rules), SettleRotation(rules, rules[k])) == Ref(rules[k])
  {
    SettleRotationOf(rules, k);
    CentreRoundTrip(rules, k, SettleRotation(rules, rules[k]));
  }

  /** The change a property setter reports to `updated`: the plain key set,
      with the old value where the wheel looks at it. */
  datatype Change = RulesChange | CurrentRuleChange(previous: RuleRef) | OtherChange

  class Wheel {
    var rules: Option<seq<Rule>>
    var rotation: real
    var currentRule: RuleRef
    var velocity: real
    var acceleration: real
    var spinning: bool
    var lastTick: int

    /** Velocity and acceleration are never negative; the rule list, when
        present, is weighted. */
    ghost predicate Valid()
      reads this
    {
      velocity >= 0.0 && acceleration >= 0.0 && (rules.Some? ==> Weighted(rules.value))
    }

    function State(): Physics.Motion
      reads this
    {
      Physics.Motion(rotation, velocity, acceleration)
    }

    /** `rotateToRule` yields a number: there is no target to settle on, no
        rule list, or a rule target with a weight and a non-empty list.
        (A `{}` target gives NaN; an empty list divides by a total of 0.) */
    ghost predicate SettleDefined()
      reads this
    {
      currentRule.Absent? || rules.None?
      || (currentRule.Ref? && currentRule.rule.weight.Some? && |rules.value| > 0)
    }

    /** The guard in `updated`: the rules or the current rule changed, the
        current rule's id differs from the reported old one, and no spin
        is under way. */
    predicate SettleGuard(change: Change)
      reads this
    {
      var oldId := if change.CurrentRuleChange? then IdOf(change.previous) else None;
      (change.RulesChange? || change.CurrentRuleChange?) && IdOf(currentRule) != oldId && !spinning
    }

    constructor ()
      ensures Valid()
      ensures rules == Some([]) && rotation == 0.0 && currentRule == Absent
      ensures velocity == 0.0 && acceleration == 0.0 && !spinning
    {
      rules := Some([]);
      rotation := 0.0;
      currentRule := Absent;
      velocity := 0.0;
      acceleration := 0.0;
      spinning := false;
      lastTick := 0;
    }

    /** `tick`: advance the physics by the clamped clock delta, report a
        rule change when the rule now under the pointer is not the one held
        before, and either ask for another tick or stop spinning. */
    method Tick(now: int) returns (dispatched: Option<RuleRef>, scheduled: bool)
      requires Valid()
      modifies this
      ensures Valid()
      ensures State() == Physics.Step(old(State()), Physics.Delta(now, old(lastTick)))
      ensures lastTick == now && rules == old(rules) && currentRule == old(currentRule)
      ensures -1.0 < rotation < 1.0 && acceleration <= old(acceleration)
      ensures scheduled <==> velocity > 0.0 || acceleration > 0.0
      ensures spinning == (scheduled && old(spinning))
      ensures var now := CurrentRuleAt(rules, rotation);
        dispatched == if SameRef(currentRule, now) then None else Some(now)
    {
      var before := currentRule;
      var delta := Physics.Delta(now, lastTick);
      ghost var start := State();
      lastTick := now;
      velocity := velocity + acceleration * delta;
      ghost var launched := velocity;
      Physics.StepUnfold(start, delta, launched);
      rotation := Physics.Turned(rotation, velocity, delta);
      rotation := Physics.RemTurn(rotation);
      velocity := Physics.Max(0.0, velocity - Physics.VelocityDecay * delta);
      acceleration := Physics.Max(0.0, acceleration - Physics.AccelerationDecay * delta);
      assert State() == Physics.Step(start, delta);
      var newRule := CalculateCurrentRule(rules, rotation);
      dispatched := if SameRef(before, newRule) then None else Some(newRule);
      scheduled := velocity > 0.0 || acceleration > 0.0;
      if !scheduled {
        spinning := false;
      }
    }

    /** `start`: draw the launch acceleration from `u` (the value of
        `Math.random()`), note the clock at `startedAt`, mark the wheel
        spinning and run the first tick at once, whose own clock reading is
        `now`. Velocity is not reset. Whatever the two readings, the first
        tick asks for another: the launch outweighs the velocity decay. */
    method Start(u: real, startedAt: int, now: int) returns (dispatched: Option<RuleRef>, scheduled: bool)
      requires Valid() && 0.0 <= u < 1.0
      modifies this
      ensures Valid()
      ensures State() == Physics.Step(
        Physics.Motion(old(rotation), old(velocity), Physics.LaunchAcceleration(u)),
        Physics.Delta(now, startedAt))
      ensures lastTick == now && rules == old(rules) && currentRule == old(currentRule)
      ensures scheduled && spinning
      ensures var now := CurrentRuleAt(rules, rotation);
        dispatched == if SameRef(currentRule, now) then None else Some(now)
    {
      acceleration := Physics.LaunchAcceleration(u);
      lastTick := startedAt;
      spinning := true;
      Physics.LaunchKeepsMoving(State(), Physics.Delta(now, startedAt));
      dispatched, scheduled := Tick(now);
    }

    /** `rotateToRule`: jump to the centre of the current rule's sector;
        nothing happens without a target or without a rule list. */
    method RotateToRule()
      requires Valid() && SettleDefined()
      modifies this`rotation
      ensures Valid()
      ensures currentRule.Absent? || rules.None? ==> rotation == old(rotation)
      ensures currentRule.Ref? && rules.Some? ==> rotation == SettleRotation(rules.value, currentRule.rule)
    {
      if currentRule.Absent? || rules.None? {
        return;
      }
      rotation := SettleRotation(rules.value, currentRule.rule);
    }

    /** `updated`: settle on the current rule when the guard allows it;
        the canvas repaint is not modelled. */
    method Updated(change: Change)
      requires Valid() && (SettleGuard(change) ==> SettleDefined())
      modifies this`rotation
      ensures Valid()
      ensures !SettleGuard(change) || currentRule.Absent? || rules.None? ==> rotation == old(rotation)
      ensures SettleGuard(change) && currentRule.Ref? && rules.Some? ==>
        rotation == SettleRotation(rules.value, currentRule.rule)
    {
      if SettleGuard(change) {
        RotateToRule();
      }
    }
  }
}
