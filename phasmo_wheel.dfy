/** The application element: four named players with a current personal
    rule each, a current team rule, and the loaded rule and item
    catalogues. */
module PhasmoWheel {
  import opened Wrappers
  import opened Rules
  import ItemSidebar

  const PlayerCount: nat := 4

  /** `[...xs.slice(0, index), x, ...xs.slice(index + 1)]`: inside the list
      the entry at `index` is replaced; at or past the end the slices give
      the whole list and nothing, so `x` is appended. */
  function ReplaceAt<T>(xs: seq<T>, index: nat, x: T): (r: seq<T>)
    ensures index < |xs| ==> r == xs[index := x]
    ensures index >= |xs| ==> r == xs + [x]
  {
    var cut := if index <= |xs| then index else |xs|;
    var rest := if index + 1 <= |xs| then xs[index + 1..] else [];
    xs[..cut] + [x] + rest
  }

  /** The loaded catalogue with every rule switched on: `active: true`,
      other fields kept. */
  function Activated(fetched: seq<Rule>): (r: seq<Rule>)
    ensures |r| == |fetched|
    ensures forall i :: 0 <= i < |r| ==> r[i].active
    ensures forall i :: 0 <= i < |r| ==> r[i].(active := fetched[i].active) == fetched[i]
  {
    WithActive(fetched, true)
  }

  class App {
    var names: seq<string>
    var currentPersonalRules: seq<RuleRef>
    var currentTeamRule: RuleRef
    var personalRules: Option<seq<Rule>>
    var activePersonalRules: Option<seq<Rule>>
    var teamRules: Option<seq<Rule>>
    var activeTeamRules: Option<seq<Rule>>
    var items: Option<seq<ItemSidebar.Item>>

    /** The constructor's state before the catalogues arrive: four default
        names, four empty personal-rule slots (`new Array(4)`), no team
        rule and no catalogues. */
    constructor ()
      ensures names == ["Player 1", "Player 2", "Player 3", "Player 4"]
      ensures currentPersonalRules == seq(PlayerCount, _ => Absent)
      ensures currentTeamRule == Absent
      ensures personalRules.None? && activePersonalRules.None?
      ensures teamRules.None? && activeTeamRules.None? && items.None?
    {
      names := ["Player 1", "Player 2", "Player 3", "Player 4"];
      currentPersonalRules := seq(PlayerCount, _ => Absent);
      currentTeamRule := Absent;
      personalRules := None;
      activePersonalRules := None;
      teamRules := None;
      activeTeamRules := None;
      items := None;
    }

    /** `handleNameChange` from the wheel at `index`. */
    method HandleNameChange(index: nat, name: string)
      modifies this`names
      ensures names == ReplaceAt(old(names), index, name)
    {
      names := ReplaceAt(names, index, name);
    }

    /** `handleRuleChange` from the personal wheel at `index`. */
    method HandleRuleChange(index: nat, rule: RuleRef)
      modifies this`currentPersonalRules
      ensures currentPersonalRules == ReplaceAt(old(currentPersonalRules), index, rule)
    {
      currentPersonalRules := ReplaceAt(currentPersonalRules, index, rule);
    }

    /** `handleTeamRuleChange`: take the rule the team wheel reported. */
    method HandleTeamRuleChange(rule: RuleRef)
      modifies this`currentTeamRule
      ensures currentTeamRule == rule
    {
      currentTeamRule := rule;
    }

    /** `loadData` once the three catalogues have been fetched: both rule
        catalogues switched on and offered in full to the wheels. */
    method LoadData(fetchedPersonal: seq<Rule>, fetchedTeam: seq<Rule>, fetchedItems: seq<ItemSidebar.Item>)
      modifies this`personalRules, this`activePersonalRules, this`teamRules, this`activeTeamRules, this`items
      ensures personalRules == Some(Activated(fetchedPersonal)) && activePersonalRules == personalRules
      ensures teamRules == Some(Activated(fetchedTeam)) && activeTeamRules == teamRules
      ensures items == Some(fetchedItems)
    {
      personalRules := Some(Activated(fetchedPersonal));
      activePersonalRules := personalRules;
      teamRules := Some(Activated(fetchedTeam));
      activeTeamRules := teamRules;
      items := Some(fetchedItems);
    }
  }

  /** A name change at a player's index keeps the four players, renames
      that one and no other. */
  lemma RenameKeepsPlayers(names: seq<string>, index: nat, name: string)
    requires index < |names|
    ensures |ReplaceAt(names, index, name)| == |names|
    ensures ReplaceAt(names, index, name)[index] == name
    ensures forall i :: 0 <= i < |names| && i != index ==> ReplaceAt(names, index, name)[i] == names[i]
  {
  }

  /** Replacing twice at the same index keeps only the second value. */
  lemma ReplaceAtTwice<T>(xs: seq<T>, index: nat, x: T, y: T)
    requires index < |xs|
    ensures ReplaceAt(ReplaceAt(xs, index, x), index, y) == ReplaceAt(xs, index, y)
  {
  }

  /** Putting back the value already at `index` changes nothing. */
  lemma ReplaceAtSame<T>(xs: seq<T>, index: nat)
    requires index < |xs|
    ensures ReplaceAt(xs, index, xs[index]) == xs
  {
  }
}
