/** The item sidebar: for every catalogue item, how many to bring under the
    personal rules and the team rule, and how the list shows each entry. */
module ItemSidebar {
  import opened Wrappers
  import opened Rules

  /** A catalogue item. */
  datatype Item = Item(id: int, name: string, min: int, max: int)

  /** An entry of `itemsToBring`: the item's fields and the quantity. */
  datatype ItemToBring = ItemToBring(id: int, name: string, quantity: int, min: int, max: int)

  /** What the destructuring `{ restrict = {} }` and `{ reduce = {} }`
      takes from a rule-like value. */
  datatype Limit = Limit(restrict: map<int, int>, reduce: map<int, int>)

  /** A rule gives its maps; a `{}` gives none. `undefined` cannot be
      destructured, so it gives nothing (the calculation throws). */
  function LimitOf(r: RuleRef): Option<Limit>
  {
    match r
    case Absent => None
    case EmptyObject => Some(Limit(map[], map[]))
    case Ref(rule) => Some(Limit(rule.restrict, rule.reduce))
  }

  /** `restrict[id] ?? max`: a stated restriction wins, even 0. */
  function Cap(l: Limit, id: int, max: int): int
  {
    if id in l.restrict then l.restrict[id] else max
  }

  /** `reduce[id] || 0`. */
  function Reduction(l: Limit, id: int): int
  {
    if id in l.reduce then l.reduce[id] else 0
  }

  /** The smallest cap the rules set on an item: no larger than any
      rule's cap, and set by one of them. */
  function MinCap(ls: seq<Limit>, id: int, max: int): (m: int)
    requires |ls| > 0
    ensures forall i :: 0 <= i < |ls| ==> m <= Cap(ls[i], id, max)
    ensures exists i :: 0 <= i < |ls| && m == Cap(ls[i], id, max)
  {
    if |ls| == 1 then Cap(ls[0], id, max)
    else
      var rest := MinCap(ls[1..], id, max);
      assert forall i :: 1 <= i < |ls| ==> ls[1..][i - 1] == ls[i];
      if Cap(ls[0], id, max) <= rest then Cap(ls[0], id, max) else rest
  }

  /** `rules.reduce((sum, { reduce = {} }) => sum + (reduce[id] || 0), 0)`. */
  function Reduced(ls: seq<Limit>, id: int): int
  {
    if |ls| == 0 then 0 else Reduced(ls[..|ls| - 1], id) + Reduction(ls[|ls| - 1], id)
  }

  /** The quantity of an item: the smallest of every rule's cap and of
      `max` less the reductions, but never below 0. So it is 0 or it is one
      of those bounds, it is no larger than any non-negative bound, and it
      is 0 only when some bound is not positive. */
  function Quantity(ls: seq<Limit>, item: Item): (q: int)
    requires |ls| > 0
    ensures q >= 0
    ensures q <= item.max - Reduced(ls, item.id) || q == 0
    ensures forall i :: 0 <= i < |ls| ==> q <= Cap(ls[i], item.id, item.max) || q == 0
    ensures q > 0 ==> (q == item.max - Reduced(ls, item.id)
      || exists i :: 0 <= i < |ls| && q == Cap(ls[i], item.id, item.max))
    ensures q == 0 ==> (item.max - Reduced(ls, item.id) <= 0
      || exists i :: 0 <= i < |ls| && Cap(ls[i], item.id, item.max) <= 0)
  {
    var m := MinCap(ls, item.id, item.max);
    var bound := if m <= item.max - Reduced(ls, item.id) then m else item.max - Reduced(ls, item.id);
    if bound >= 0 then bound else 0
  }

  /** The rule-like values of the calculation, `[...personalRules,
      teamRule]`, as limits, when none of them is `undefined`. */
  function Limits(rules: seq<RuleRef>): (r: Option<seq<Limit>>)
    ensures r.Some? <==> forall i :: 0 <= i < |rules| ==> !rules[i].Absent?
    ensures r.Some? ==> (|r.value| == |rules|
      && forall i :: 0 <= i < |rules| ==> Some(r.value[i]) == LimitOf(rules[i]))
  {
    if |rules| == 0 then Some([])
    else
      match (LimitOf(rules[0]), Limits(rules[1..]))
      case (Some(l), Some(rest)) =>
        assert forall i :: 1 <= i < |rules| ==> rules[1..][i - 1] == rules[i];
        Some([l] + rest)
      case (_, r) =>
        assert r.None? ==> exists i :: 1 <= i < |rules| && rules[i].Absent? by {
          if r.None? {
            var j :| 0 <= j < |rules[1..]| && rules[1..][j].Absent?;
            assert rules[j + 1].Absent?;
          }
        }
        None
  }

  /** The result of `calculateItemsToBring`: the new list, or the
      `TypeError` thrown when an `undefined` personal rule is destructured. */
  datatype Calculation = Listed(toBring: seq<ItemToBring>) | TypeError

  /** `calculateItemsToBring` on its three inputs. A missing input gives
      `[]`; an empty catalogue gives `[]` without looking at the rules;
      otherwise one entry per catalogue item, in order, with the item's
      fields and its quantity. */
  function ItemsToBring(personal: Option<seq<RuleRef>>, team: RuleRef, items: Option<seq<Item>>): (c: Calculation)
    ensures personal.None? || team.Absent? || items.None? ==> c == Listed([])
    ensures personal.Some? && !team.Absent? && items.Some? ==>
      var ls := Limits(personal.value + [team]);
      && (c.TypeError? <==> |items.value| > 0 && ls.None?)
      && (c.Listed? ==> (|c.toBring| == |items.value|
          && forall i :: 0 <= i < |items.value| ==>
               var it, out := items.value[i], c.toBring[i];
               && out.id == it.id && out.name == it.name && out.min == it.min && out.max == it.max
               && out.quantity == Quantity(ls.value, it)))
  {
    if personal.None? || team.Absent? || items.None? then Listed([])
    else if |items.value| == 0 then Listed([])
    else
      match Limits(personal.value + [team])
      case None => TypeError
      case Some(ls) =>
        assert |ls| == |personal.value| + 1;
        Listed(seq(|items.value|, i requires 0 <= i < |items.value| =>
          var it := items.value[i];
          ItemToBring(it.id, it.name, Quantity(ls, it), it.min, it.max)))
  }

  /** An item no rule restricts or reduces gets its full `max`. */
  lemma UnconstrainedTakesMax(ls: seq<Limit>, item: Item)
    requires |ls| > 0 && item.max >= 0
    requires forall i :: 0 <= i < |ls| ==> item.id !in ls[i].restrict && item.id !in ls[i].reduce
    ensures Quantity(ls, item) == item.max
  {
    ReducedNone(ls, item.id);
  }

  lemma {:induction false} ReducedNone(ls: seq<Limit>, id: int)
    requires forall i :: 0 <= i < |ls| ==> id !in ls[i].reduce
    ensures Reduced(ls, id) == 0
  {
    if |ls| > 0 {
      ReducedNone(ls[..|ls| - 1], id);
    }
  }

  /** Taking one entry out of a list takes its reduction out of the sum. */
  lemma {:induction false} ReducedRemove(ls: seq<Limit>, id: int, j: nat)
    requires j < |ls|
    ensures Reduced(ls, id) == Reduction(ls[j], id) + Reduced(ls[..j] + ls[j + 1..], id)
  {
    var n := |ls| - 1;
    if j < n {
      var rest := ls[..j] + ls[j + 1..];
      ReducedRemove(ls[..n], id, j);
      assert ls[..n][..j] + ls[..n][j + 1..] == rest[..|rest| - 1];
      assert rest[|rest| - 1] == ls[n];
    } else {
      assert ls[..j] + ls[j + 1..] == ls[..n];
    }
  }

  /** The reductions add up to the same sum in any order. */
  lemma {:induction false} ReducedPermutation(a: seq<Limit>, b: seq<Limit>, id: int)
    requires multiset(a) == multiset(b)
    ensures Reduced(a, id) == Reduced(b, id)
  {
    if |a| > 0 {
      var n := |a| - 1;
      assert a[n] in multiset(b);
      var j :| 0 <= j < |b| && b[j] == a[n];
      var b' := b[..j] + b[j + 1..];
      assert b == b[..j] + [b[j]] + b[j + 1..];
      assert a == a[..n] + [a[n]];
      assert multiset(b) == multiset(b[..j]) + multiset{b[j]} + multiset(b[j + 1..]);
      assert multiset(b') == multiset(b[..j]) + multiset(b[j + 1..]);
      assert multiset(a) == multiset(a[..n]) + multiset{a[n]};
      assert multiset(a[..n]) == multiset(a) - multiset{a[n]};
      assert multiset(b') == multiset(b) - multiset{b[j]};
      ReducedPermutation(a[..n], b', id);
      ReducedRemove(b, id, j);
    } else {
      assert |b| == 0;
    }
  }

  /** Reordering the rules changes no quantity: the smallest cap and the
      sum of the reductions do not depend on the order. */
  lemma QuantityPermutation(a: seq<Limit>, b: seq<Limit>, item: Item)
    requires |a| > 0 && multiset(a) == multiset(b)
    ensures |b| > 0 && Quantity(a, item) == Quantity(b, item)
  {
    assert a[0] in multiset(b);
    ReducedPermutation(a, b, item.id);
    var ma, mb := MinCap(a, item.id, item.max), MinCap(b, item.id, item.max);
    var i :| 0 <= i < |a| && ma == Cap(a[i], item.id, item.max);
    var j :| 0 <= j < |b| && mb == Cap(b[j], item.id, item.max);
    assert a[i] in multiset(b);
    assert b[j] in multiset(a);
    var i' :| 0 <= i' < |b| && b[i'] == a[i];
    var j' :| 0 <= j' < |a| && a[j'] == b[j];
    assert ma == mb;
  }

  /** How the list shows an entry: the `under`, `none` and `less` markers
      and the number printed. */
  datatype Display = Display(under: bool, none: bool, less: bool, shown: int)

  /** The markers and the printed number of an entry. At most one marker is
      set, and the printed number is never below `min` or the quantity. */
  function DisplayOf(t: ItemToBring): (d: Display)
    ensures d.shown >= t.min && d.shown >= t.quantity
    ensures d.shown == t.min || d.shown == t.quantity
    ensures !(d.under && d.none) && !(d.under && d.less) && !(d.none && d.less)
  {
    Display(
      t.quantity < t.min && t.min > 0,
      t.quantity == t.min,
      t.quantity < t.max && t.quantity > t.min,
      if t.min >= t.quantity then t.min else t.quantity)
  }

  /** An entry with no marker, a quantity that is not negative and a
      `min` that is not negative is taken at `max` or more. */
  lemma UnmarkedTakesMax(t: ItemToBring)
    requires t.quantity >= 0 && t.min >= 0
    requires var d := DisplayOf(t); !d.under && !d.none && !d.less
    ensures t.quantity >= t.max && t.quantity > t.min
  {
  }

  class Sidebar {
    var personalRules: Option<seq<RuleRef>>
    var teamRule: RuleRef
    var items: Option<seq<Item>>
    var itemsToBring: seq<ItemToBring>

    constructor ()
      ensures personalRules.None? && teamRule.Absent? && items.None? && itemsToBring == []
    {
      personalRules := None;
      teamRule := Absent;
      items := None;
      itemsToBring := [];
    }

    /** `calculateItemsToBring`: store the new list, or leave the old one
        when the calculation throws. */
    method CalculateItemsToBring() returns (threw: bool)
      modifies this`itemsToBring
      ensures var c := ItemsToBring(personalRules, teamRule, items);
        && threw == c.TypeError?
        && (c.Listed? ==> itemsToBring == c.toBring)
        && (c.TypeError? ==> itemsToBring == old(itemsToBring))
    {
      var c := ItemsToBring(personalRules, teamRule, items);
      threw := c.TypeError?;
      if c.Listed? {
        itemsToBring := c.toBring;
      }
    }

    /** `updated`: recalculate when one of the three inputs is among the
        changed keys. */
    method Updated(changed: set<string>) returns (threw: bool)
      modifies this`itemsToBring
      ensures var recalc := "personalRules" in changed || "teamRule" in changed || "items" in changed;
        var c := ItemsToBring(personalRules, teamRule, items);
        && (!recalc ==> itemsToBring == old(itemsToBring) && !threw)
        && (recalc ==> (threw == c.TypeError?
            && (c.Listed? ==> itemsToBring == c.toBring)
            && (c.TypeError? ==> itemsToBring == old(itemsToBring))))
    {
      threw := false;
      if "personalRules" in changed || "teamRule" in changed || "items" in changed {
        threw := CalculateItemsToBring();
      }
    }
  }
}
