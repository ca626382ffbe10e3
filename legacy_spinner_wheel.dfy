/** The earlier spinner wheel: sectors laid out from a start angle of 7/4
    turns, a pointer getter that walks them, and the same spin physics
    without a `spinning` flag. A missing weight counts as 1 in the total;
    a missing or zero weight counts as 1 in a sector's width. Rotation is
    in turns throughout. */
module LegacySpinnerWheel {
  import opened Wrappers
  import opened Rules
  import Sectors
  import Physics
  import SpinnerWheel
  import Reals

  /** The angle the walk starts from: 7*pi/2, seven quarter turns. */
  const WalkStart: real := 1.75

  /** Weights are missing or not negative, and a non-empty list has a
      positive total. */
  ghost predicate LegacyWeighted(rules: seq<Rule>)
  {
    && (forall i :: 0 <= i < |rules| ==> rules[i].weight.None? || rules[i].weight.value >= 0.0)
    && (|rules| > 0 ==> Sectors.Total(Counted(rules)) > 0.0)
  }

  /** What `totalWeight` adds up per rule: the destructuring default makes
      a missing weight 1, a zero weight stays 0. */
  function Counted(rules: seq<Rule>): (ws: seq<real>)
    ensures |ws| == |rules|
    ensures forall i :: 0 <= i < |ws| ==>
      ws[i] == (if rules[i].weight.None? then 1.0 else rules[i].weight.value)
  {
    seq(|rules|, i requires 0 <= i < |rules| =>
      if rules[i].weight.None? then 1.0 else rules[i].weight.value)
  }

  /** `weight || 1`: a missing or a zero weight is 1. */
  function EffectiveWeight(r: Rule): real
  {
    if r.weight.None? || r.weight.value == 0.0 then 1.0 else r.weight.value
  }

  /** What the walk subtracts per rule. */
  function Effective(rules: seq<Rule>): (ws: seq<real>)
    ensures |ws| == |rules| && forall i :: 0 <= i < |ws| ==> ws[i] == EffectiveWeight(rules[i])
  {
    seq(|rules|, i requires 0 <= i < |rules| => EffectiveWeight(rules[i]))
  }

  /** `totalWeight`. */
  function TotalWeight(rules: seq<Rule>): real
  {
    Sectors.Total(Counted(rules))
  }

  /** Each rule's sector width in turns, `(weight || 1) / totalWeight`;
      the widths form a wheel, one pass of which is `Total(Effective) / T`
      turns long. */
  function Widths(rules: seq<Rule>): (ws: seq<real>)
    requires LegacyWeighted(rules) && |rules| > 0
    ensures |ws| == |rules| && Sectors.IsWheel(ws)
    ensures forall i :: 0 <= i < |ws| ==> ws[i] == EffectiveWeight(rules[i]) / TotalWeight(rules)
  {
    var eff := Effective(rules);
    assert Sectors.NonNegative(eff);
    Sectors.PrefixCovers(eff, 0, |eff|);
    Sectors.ScaledWheel(eff, TotalWeight(rules));
    Sectors.Scaled(eff, TotalWeight(rules))
  }

  /** One pass of the walk is `Total(Effective) / T` turns long. */
  lemma WidthsTotal(rules: seq<Rule>)
    requires LegacyWeighted(rules) && |rules| > 0
    ensures Sectors.Total(Widths(rules)) == Sectors.Total(Effective(rules)) / TotalWeight(rules)
  {
    Sectors.PrefixScaled(Effective(rules), TotalWeight(rules), |rules|);
  }

  /** The value the `currentRule` getter produces: `null`, `undefined`, a
      rule, or a thrown `TypeError`. */
  datatype Reading = Null | Undefined | Found(rule: Rule) | TypeError

  /** The getter without walking: `null` without a rule list; `undefined`
      when the rotation lies beyond the start angle (the walk never moves
      and `rules[-1]` is read); a `TypeError` for an empty list otherwise
      (`ruleIndex % 0` is NaN and `rules[NaN].weight` is read); and
      otherwise the rule whose sector lies `WalkStart - rotation` turns
      down the walk. */
  function CurrentRuleAt(rules: Option<seq<Rule>>, rotation: real): Reading
    requires rules.Some? ==> LegacyWeighted(rules.value)
  {
    if rules.None? then Null
    else if rotation > WalkStart then Undefined
    else if |rules.value| == 0 then TypeError
    else Found(rules.value[Sectors.SectorIndex(Widths(rules.value), WalkStart - rotation)])
  }

  /** The `currentRule` getter: walk the sectors from 7/4 turns while the
      angle is at or above the rotation. It terminates for every rotation
      and agrees with `CurrentRuleAt`. */
  method ReadCurrentRule(rules: Option<seq<Rule>>, rotation: real) returns (r: Reading)
    requires rules.Some? ==> LegacyWeighted(rules.value)
    ensures r == CurrentRuleAt(rules, rotation)
    ensures r.Found? ==> rules.Some? && r.rule in rules.value
  {
    if rules.None? {
      return Null;
    }
    var rs := rules.value;
    if |rs| == 0 {
      return if WalkStart >= rotation then TypeError else Undefined;
    }
    var angle := WalkStart;
    var ruleIndex := -1;
    var total := TotalWeight(rs);
    ghost var ws := Widths(rs);
    ghost var q: nat := 0;
    ghost var passes := ((WalkStart - rotation) / Sectors.Total(ws)).Floor;
    while angle >= rotation
      invariant -1 <= ruleIndex < |rs|
      invariant ruleIndex == -1 ==> q == 0
      invariant angle == Sectors.WalkAngle(ws, WalkStart, q, ruleIndex)
      invariant ruleIndex >= 0 ==> angle + ws[ruleIndex] >= rotation
      decreases passes - q, |rs| - ruleIndex
    {
      Sectors.WalkAdvance(ws, WalkStart, rotation, q, ruleIndex);
      if ruleIndex == |rs| - 1 {
        q := q + 1;
      }
      ruleIndex := (ruleIndex + 1) % |rs|;
      assert ws[ruleIndex] == EffectiveWeight(rs[ruleIndex]) / total;
      angle := angle - EffectiveWeight(rs[ruleIndex]) / total;
    }
    if ruleIndex == -1 {
      return Undefined;
    }
    Sectors.WalkStops(ws, WalkStart, rotation, q, ruleIndex);
    ReadAt(rs, rotation);
    r := Found(rs[ruleIndex]);
  }

  /** On a non-empty list and a rotation not beyond the start angle the
      getter reads the rule `SectorIndex` names. */
  lemma ReadAt(rules: seq<Rule>, rotation: real)
    requires LegacyWeighted(rules) && |rules| > 0 && rotation <= WalkStart
    ensures CurrentRuleAt(Some(rules), rotation)
      == Found(rules[Sectors.SectorIndex(Widths(rules), WalkStart - rotation)])
  {
  }

  /** When no weight is zero the two per-rule sums agree, and the sectors
      fill exactly one turn. */
  lemma OneTurnWithoutZeroWeights(rules: seq<Rule>)
    requires LegacyWeighted(rules) && |rules| > 0
    requires forall i :: 0 <= i < |rules| ==> rules[i].weight != Some(0.0)
    ensures Sectors.Total(Widths(rules)) == 1.0
  {
    assert Effective(rules) == Counted(rules);
    WidthsTotal(rules);
    Reals.DivSelf(TotalWeight(rules));
  }

  /** A zero weight counts 0 in the total but 1 in its width, so the
      sectors add up to more than one turn. */
  lemma ZeroWeightLengthensPass(rules: seq<Rule>, z: nat)
    requires LegacyWeighted(rules) && z < |rules| && rules[z].weight == Some(0.0)
    ensures Sectors.Total(Widths(rules)) > 1.0
  {
    var eff, cnt := Effective(rules), Counted(rules);
    WidthsTotal(rules);
    Sectors.PrefixDominated(cnt, eff, |rules|);
    assert cnt[z] < eff[z];
    var t := TotalWeight(rules);
    Reals.DivSelf(t);
    Reals.MulStrict(1.0, Sectors.Total(eff) / t, t);
    assert Sectors.Total(eff) / t * t == Sectors.Total(eff);
  }

  /** Within the first turn below the start angle, and with no zero
      weight, rule `k` is read exactly on `(7/4 - E(k+1)/T, 7/4 - E(k)/T]`,
      where `E(k)` sums the first `k` widths `weight || 1`: an arc as long
      as rule `k`'s share of the turn. */
  lemma FirstTurnArcs(rules: seq<Rule>, rotation: real, k: nat)
    requires LegacyWeighted(rules) && k < |rules|
    requires forall i :: 0 <= i < |rules| ==> rules[i].weight != Some(0.0)
    requires WalkStart - 1.0 < rotation <= WalkStart
    ensures var e, t := Effective(rules), TotalWeight(rules);
      Sectors.SectorIndex(Widths(rules), WalkStart - rotation) == k <==>
        WalkStart - Sectors.Prefix(e, k + 1) / t < rotation <= WalkStart - Sectors.Prefix(e, k) / t
    ensures Widths(rules)[k] == Effective(rules)[k] / TotalWeight(rules)
  {
    var e, t := Effective(rules), TotalWeight(rules);
    Sectors.PrefixScaled(e, t, k);
    Sectors.PrefixScaled(e, t, k + 1);
    OneTurnWithoutZeroWeights(rules);
    Sectors.SectorArc(Widths(rules), 0, k, WalkStart - rotation);
  }

  /** Empty list: the first tick's physics never leaves the first turn, so
      the getter runs the walk and throws. */
  lemma EmptyListThrows(m: Physics.Motion, dt: real)
    requires dt > 0.0
    ensures CurrentRuleAt(Some([]), Physics.Step(m, dt).rotation) == TypeError
  {
  }

  /** With every weight present and positive, the earlier wheel reads at
      `rotation` the rule the current wheel reads three quarter turns
      earlier: only the start angle moved. */
  lemma MatchesCurrentWheel(rules: seq<Rule>, rotation: real)
    requires |rules| > 0
    requires forall i :: 0 <= i < |rules| ==> rules[i].weight.Some? && rules[i].weight.value > 0.0
    requires rotation <= WalkStart
    ensures LegacyWeighted(rules) && SpinnerWheel.Weighted(rules)
    ensures CurrentRuleAt(Some(rules), rotation).Found?
    ensures SpinnerWheel.CurrentRuleAt(Some(rules), rotation - 0.75)
      == Ref(CurrentRuleAt(Some(rules), rotation).rule)
  {
    SameWheel(rules);
    assert SpinnerWheel.WalkStart - (rotation - 0.75) == WalkStart - rotation;
  }

  /** With every weight present and positive both wheels cut the same
      sectors. */
  lemma SameWheel(rules: seq<Rule>)
    requires |rules| > 0
    requires forall i :: 0 <= i < |rules| ==> rules[i].weight.Some? && rules[i].weight.value > 0.0
    ensures LegacyWeighted(rules) && SpinnerWheel.Weighted(rules)
    ensures Widths(rules) == SpinnerWheel.Widths(rules)
  {
    var w := SpinnerWheel.Weights(rules);
    assert Counted(rules) == w && Effective(rules) == w;
    Sectors.PrefixCovers(w, 0, |w|);
    var t := TotalWeight(rules);
    assert SpinnerWheel.TotalWeight(rules) == t;
    var a, b := Widths(rules), SpinnerWheel.Widths(rules);
    forall i | 0 <= i < |rules| ensures a[i] == b[i] {
      assert a[i] == w[i] / t && b[i] == w[i] / t;
    }
  }

  /** Turning back by one full pass reads the same rule. */
  lemma ReadingPeriodic(rules: seq<Rule>, rotation: real)
    requires LegacyWeighted(rules) && |rules| > 0 && rotation <= WalkStart
    ensures CurrentRuleAt(Some(rules), rotation - Sectors.Total(Widths(rules)))
      == CurrentRuleAt(Some(rules), rotation)
  {
    var ws := Widths(rules);
    Sectors.SectorIndexPeriodic(ws, WalkStart - rotation);
    assert WalkStart - (rotation - Sectors.Total(ws)) == (WalkStart - rotation) + Sectors.Total(ws);
  }

  /** How a tick ends: the getter threw, or the tick ran and perhaps
      announced a new reading and asked for another tick. */
  datatype TickOutcome = Threw | Ticked(dispatched: Option<Reading>, scheduled: bool)

  class LegacyWheel {
    var rules: Option<seq<Rule>>
    var rotation: real
    var velocity: real
    var acceleration: real
    var lastTick: int

    /** Velocity and acceleration are never negative; the rule list, when
        present, is legacy-weighted. */
    ghost predicate Valid()
      reads this
    {
      velocity >= 0.0 && acceleration >= 0.0 && (rules.Some? ==> LegacyWeighted(rules.value))
    }

    function State(): Physics.Motion
      reads this
    {
      Physics.Motion(rotation, velocity, acceleration)
    }

    constructor ()
      ensures Valid()
      ensures rules == Some([]) && rotation == 0.0 && velocity == 0.0 && acceleration == 0.0
    {
      rules := Some([]);
      rotation := 0.0;
      velocity := 0.0;
      acceleration := 0.0;
      lastTick := 0;
    }

    /** `tick`: read the getter, advance the physics by the clamped clock
        delta, read the getter again and announce the new reading when it
        differs. A getter that throws ends the tick there. */
    method Tick(now: int) returns (outcome: TickOutcome)
      requires Valid()
      modifies this
      ensures Valid() && rules == old(rules)
      ensures CurrentRuleAt(old(rules), old(rotation)).TypeError? ==>
        outcome == Threw && State() == old(State()) && lastTick == old(lastTick)
      ensures !CurrentRuleAt(old(rules), old(rotation)).TypeError? ==>
        && State() == Physics.Step(old(State()), Physics.Delta(now, old(lastTick)))
        && lastTick == now
        && var before, after := CurrentRuleAt(rules, old(rotation)), CurrentRuleAt(rules, rotation);
           outcome == if after.TypeError? then Threw
             else Ticked(if before != after then Some(after) else None,
                         velocity > 0.0 || acceleration > 0.0)
    {
      var before := ReadCurrentRule(rules, rotation);
      if before.TypeError? {
        return Threw;
      }
      var delta := Physics.Delta(now, lastTick);
      ghost var start := State();
      lastTick := now;
      velocity := velocity + acceleration * delta;
      ghost var launched := velocity;
      Physics.StepUnfold(start, delta, launched);
      rotation := Physics.Turned(rotation, velocity, delta);
      rotation := Physics.RemTurn(rotation);
      velocity := Physics.Max(0.0, velocity - Physics.VelocityDecay * delta);
      acceleration := Physics.Max(0.0, acceleration - Physics.AccelerationDecay * delta);
      assert State() == Physics.Step(start, delta);
      var after := ReadCurrentRule(rules, rotation);
      if after.TypeError? {
        return Threw;
      }
      var dispatched := if before != after then Some(after) else None;
      outcome := Ticked(dispatched, velocity > 0.0 || acceleration > 0.0);
    }

    /** `start`: draw the launch acceleration from `u` (the value of
        `Math.random()`), note the clock at `startedAt` and tick at once,
        the tick reading the clock at `now`. Unless the getter throws, the
        first tick announces a changed reading and asks for another tick. */
    method Start(u: real, startedAt: int, now: int) returns (outcome: TickOutcome)
      requires Valid() && 0.0 <= u < 1.0
      modifies this
      ensures Valid() && rules == old(rules)
      ensures CurrentRuleAt(rules, old(rotation)).TypeError? ==>
        && outcome == Threw && lastTick == startedAt
        && State() == Physics.Motion(old(rotation), old(velocity), Physics.LaunchAcceleration(u))
      ensures !CurrentRuleAt(rules, old(rotation)).TypeError? ==>
        && lastTick == now
        && State() == Physics.Step(
             Physics.Motion(old(rotation), old(velocity), Physics.LaunchAcceleration(u)),
             Physics.Delta(now, startedAt))
        && var before, after := CurrentRuleAt(rules, old(rotation)), CurrentRuleAt(rules, rotation);
           outcome == if after.TypeError? then Threw
             else Ticked(if before != after then Some(after) else None, true)
    {
      acceleration := Physics.LaunchAcceleration(u);
      lastTick := startedAt;
      Physics.LaunchKeepsMoving(State(), Physics.Delta(now, startedAt));
      outcome := Tick(now);
    }

    /** `updated`: a change of `rules` announces the getter's reading. A
        getter that throws does so while the event is being built, so
        nothing is sent; the canvas repaint is not modelled. */
    method Updated(rulesChanged: bool) returns (dispatched: Option<Reading>, threw: bool)
      requires Valid()
      ensures threw <==> rulesChanged && CurrentRuleAt(rules, rotation).TypeError?
      ensures rulesChanged && !threw ==> dispatched == Some(CurrentRuleAt(rules, rotation))
      ensures !rulesChanged || threw ==> dispatched == None
    {
      dispatched, threw := None, false;
      if rulesChanged {
        var reading := ReadCurrentRule(rules, rotation);
        if reading.TypeError? {
          threw := true;
        } else {
          dispatched := Some(reading);
        }
      }
    }
  }
}
