# phasmo-wheel in Dafny

A model of the logic of phasmo-wheel, a browser toy that spins weighted
wheels of game rules for a team and four players. It also works out which
items each player may bring under the rules the wheels landed on. The
model covers:

- the current spinner wheel: its weighted sector lookup, the settle that
  centres the wheel on a rule, and the spin physics with its `spinning`
  flag;
- the earlier spinner wheel: the same design with a start angle of 7π/2,
  default weights, and a getter that can return `null` or `undefined`, or
  throw;
- the item sidebar's quantity calculation and the markers its list shows;
- the rule panel's copy-on-write toggles;
- the application's replace-at-index updates and its load mapping;
- the element base class: backing keys and the change rule of its
  property setter.

Modules follow the source files. `Sectors` holds the sector geometry both
wheels share. `Physics` holds the tick both wheels run. `Rules` holds the
rule record. `Reals` holds a few facts about real multiplication and
division.

Angles are exact reals measured in turns: 2π radians is 1. Velocity and
acceleration keep the source's units, radians per second and radians per
second squared. A tick converts with `Physics.Tau`, the double-precision
value of `2 * Math.PI`.

Each wheel keeps its own pointer walk as a `while` loop, like the source.
That loop is proved to stop for every rotation. It is also proved equal to
a definition that does not walk: divide out the full passes, then find the
sector holding the remaining offset (`Sectors.SectorIndex`). The
properties of each wheel are proved about that definition.

Facts about the code that the model keeps:

- The item calculation has no minimum (`require`) constraint.
- `start` has no re-entrancy guard.
- `start` does not reset the velocity.
- When `rotateToRule`'s target is not in the list, `findIndex` returns -1.
  `slice(0, -1)` then keeps every rule but the last.
- `start` and the `tick` it calls each read the clock. They are two
  separate parameters, so the first tick can be longer than the floor.

Clock readings (`Date.now()`) and the random draw (`Math.random()`) are
parameters. A scheduled next tick is a returned flag. A dispatched event
is a returned value.

## Model

| member | source | states |
|---|---|---|
| SpinnerWheel.TotalWeight | client/components/spinner/spinner-wheel.js:21-23 | The sum of the weights is never negative. |
| SpinnerWheel.TotalWeightCovers | client/components/spinner/spinner-wheel.js:21-23 | The total is at least every single weight, so one positive weight makes it positive. |
| SpinnerWheel.Widths | client/components/spinner/spinner-wheel.js:204 | Each rule's width in turns is its weight over the total. The widths form a wheel of exactly one turn. |
| SpinnerWheel.WidthsPrefix | client/components/spinner/spinner-wheel.js:201-204 | The edge before sector `k` sits at the first `k` weights' share of the total. |
| SpinnerWheel.CalculateCurrentRule | client/components/spinner/spinner-wheel.js:194-208 | `{}` for an absent or empty list. Otherwise the walk stops for every rotation and gives exactly the lookup by `SectorIndex` (`undefined` past the start angle). Any rule it returns belongs to the list. |
| SpinnerWheel.SectorBounds | client/components/spinner/spinner-wheel.js:199-205 | For a rotation in (0, 1], rule `k` is found exactly when 1 − S(k+1)/T < rotation ≤ 1 − S(k)/T. So a rotation on an edge goes to the later rule. |
| SpinnerWheel.FindIndex | client/components/spinner/spinner-wheel.js:215 | The first position holding the id, with no earlier one holding it. It is -1 exactly when no position holds it. |
| SpinnerWheel.FindIndexUnique | client/components/spinner/spinner-wheel.js:215 | With unique ids every rule is found at its own position. |
| SpinnerWheel.TotalWeightTake | client/components/spinner/spinner-wheel.js:217-219 | The total of `rules.slice(0, k)` is the sum of the first `k` weights. |
| SpinnerWheel.SettleRotationAt | client/components/spinner/spinner-wheel.js:215-221 | A rule found at `k` settles at (−S(k) − w/2)/T. |
| SpinnerWheel.SettleRotationOf | client/components/spinner/spinner-wheel.js:215-221 | The same formula for every rule of a list with unique ids. |
| SpinnerWheel.SettleAngleCentred | client/components/spinner/spinner-wheel.js:221 | The settle angle lies strictly inside (−1, 0). Seen from the start angle, it sits half a width past the sector's near edge. |
| SpinnerWheel.CentreLands | client/components/spinner/spinner-wheel.js:199-205 | The centre of a sector of positive width, one pass down the walk, is looked up as that sector. |
| SpinnerWheel.SectorWithinTotal | client/components/spinner/spinner-wheel.js:217-221 | The rules before `k` together with rule `k` weigh no more than all the rules. |
| SpinnerWheel.LandsOnCentre | client/components/spinner/spinner-wheel.js:199-205 | The lookup at the centre of rule `k`'s sector finds rule `k`. |
| SpinnerWheel.CentreRoundTrip | client/components/spinner/spinner-wheel.js:194-222 | At the settle angle of position `k` the lookup finds rule `k`, and that angle lies inside (−1, 0). |
| SpinnerWheel.SettleRoundTrip | client/components/spinner/spinner-wheel.js:194-222 | Round trip: settling on any rule of a list with unique ids and positive weights, then looking up the pointer, gives that rule back. |
| SpinnerWheel.Wheel.constructor | client/components/spinner/spinner-wheel.js:37-53 | Empty rule list, rotation 0, no motion, not spinning. |
| SpinnerWheel.Wheel.Tick | client/components/spinner/spinner-wheel.js:73-98 | The new motion is `Physics.Step` over the clamped delta. Velocity and acceleration stay non-negative, acceleration never grows, and the rotation stays inside (−1, 1). A change is reported exactly when the new lookup is not `===` the held rule. Another tick is scheduled exactly when velocity or acceleration is positive; otherwise `spinning` is cleared. |
| SpinnerWheel.Wheel.Start | client/components/spinner/spinner-wheel.js:65-98 | Draws the launch acceleration, notes the clock, marks the wheel spinning and runs one tick at once. That tick has the old velocity and lasts from the noted reading to the tick's own reading. It reports a change exactly when the new lookup is not `===` the held rule. Whatever the two readings, it schedules another tick. |
| SpinnerWheel.Wheel.RotateToRule | client/components/spinner/spinner-wheel.js:210-222 | No target or no list leaves the rotation alone. Otherwise the rotation becomes the settle angle. |
| SpinnerWheel.Wheel.Updated | client/components/spinner/spinner-wheel.js:25-29 | Settles only when the rules or the current rule changed, the id differs from the old one, and no spin is under way. Otherwise the rotation is unchanged. |
| Physics.Delta | client/components/spinner/spinner-wheel.js:76 | The tick length is the clock difference in seconds, but never below 10⁻⁶ s. So it is positive even for a clock that stands still or runs backwards. |
| Physics.LaunchAcceleration | client/components/spinner/spinner-wheel.js:66 | The launch acceleration lies in [7, 13) for a draw in [0, 1). |
| Physics.RemTurn | client/components/spinner/spinner-wheel.js:81 | JavaScript `%` by a turn: the result differs from the input by a whole number of turns, keeps the input's sign and stays strictly inside one turn. So it is the truncated remainder, and a value already inside is unchanged. |
| Physics.Step | client/components/spinner/spinner-wheel.js:79-84 | After a tick, velocity and acceleration are non-negative and the rotation is inside (−1, 1). Acceleration never grows, falls when positive, and reaches 0 exactly when the decay covers it. |
| Physics.StepsLeftDecrease | client/components/spinner/spinner-wheel.js:83-84 | A positive value that decays for a tick needs fewer floor-length ticks to reach zero. |
| Physics.LaunchKeepsMoving | client/components/spinner/spinner-wheel.js:66-98 | A wheel launched with more acceleration than the velocity decay still has a positive velocity after one tick of any length. |
| Physics.StepProgress | client/components/spinner/spinner-wheel.js:79-84 | Every tick of a moving wheel decreases (acceleration ticks left, velocity ticks left) lexicographically. |
| Physics.SpinComesToRest | client/components/spinner/spinner-wheel.js:94-98 | Whatever the clock reads, the tick chain reaches a state that schedules no further tick. |
| Sectors.Passes | client/components/spinner/spinner-wheel.js:199-205 | The number of full passes `q` satisfies q·T ≤ y < (q+1)·T. |
| Sectors.FirstAbove | client/components/spinner/spinner-wheel.js:199-205 | The first sector from `k` on whose far edge lies beyond the offset, with the offset inside that sector. |
| Sectors.SectorIndex | client/components/spinner/spinner-wheel.js:199-207 | The sector the walk lands on after a descent of `y`, in the pass `Passes` counts. |
| Sectors.LandsUnique | client/components/spinner/spinner-wheel.js:199-207 | A descent lands in one pass and one sector only. |
| Sectors.SectorIndexExact | client/components/spinner/spinner-wheel.js:199-207 | `SectorIndex` and `Passes` name a sector and pass exactly when the descent lands there, in both directions. |
| Sectors.SectorIndexPeriodic | client/components/spinner/spinner-wheel.js:201-204 | A descent one full pass longer lands on the same sector. |
| Sectors.SectorArc | client/components/spinner/spinner-wheel.js:199-205 | Inside pass `q`, sector `k` is chosen exactly on the half-open arc [q·T + P(k), q·T + P(k+1)). That arc is as long as the sector's width. |
| Sectors.WalkAdvance | client/components/spinner/spinner-wheel.js:201-204 | One step of a walk that goes on moves cyclically to the next sector, subtracts its width, and stays within the passes that fit. |
| Sectors.WalkStops | client/components/spinner/spinner-wheel.js:201-207 | Where the walk stops is the sector `SectorIndex` names. |
| LegacySpinnerWheel.Widths | client/components/spinner-wheel.js:34 | Each width is `(weight \|\| 1)` over `totalWeight`, and the widths form a wheel. |
| LegacySpinnerWheel.WidthsTotal | client/components/spinner-wheel.js:20-22 | One pass of the walk is the sum of `weight \|\| 1` over `totalWeight` turns long. |
| LegacySpinnerWheel.ReadCurrentRule | client/components/spinner-wheel.js:24-38 | `null` without a list. An empty list throws once the loop is entered and gives `undefined` otherwise. A non-empty list's walk stops for every rotation and gives exactly the lookup by `SectorIndex`. A rule it returns belongs to the list. |
| LegacySpinnerWheel.EmptyListThrows | client/components/spinner-wheel.js:24-31 | With an empty list, the rotation after any first tick lies below the start angle, so the getter enters its loop and throws. |
| LegacySpinnerWheel.OneTurnWithoutZeroWeights | client/components/spinner-wheel.js:20-34 | With no zero weight the two per-rule sums agree, and the sectors fill exactly one turn. |
| LegacySpinnerWheel.ZeroWeightLengthensPass | client/components/spinner-wheel.js:20-34 | A zero weight counts 0 in the total but 1 in its width, so one pass is longer than a turn. |
| LegacySpinnerWheel.FirstTurnArcs | client/components/spinner-wheel.js:29-35 | In the turn below 7/4 and with no zero weight, rule `k` is read exactly on (7/4 − E(k+1)/T, 7/4 − E(k)/T]. That arc is as long as `(weight \|\| 1)/T`. |
| LegacySpinnerWheel.ReadingPeriodic | client/components/spinner-wheel.js:29-35 | A rotation one full pass lower reads the same rule. |
| LegacySpinnerWheel.SameWheel | client/components/spinner-wheel.js:20-34 | With every weight present and positive, both wheels cut the same sectors. |
| LegacySpinnerWheel.MatchesCurrentWheel | client/components/spinner-wheel.js:29-35 | With such weights the earlier wheel reads a rule at every rotation up to 7/4. It is the rule the current wheel reads three quarter turns lower. |
| LegacySpinnerWheel.LegacyWheel.constructor | client/components/spinner-wheel.js:40-56 | Empty rule list, rotation 0, no motion. |
| LegacySpinnerWheel.LegacyWheel.Tick | client/components/spinner-wheel.js:86-110 | A getter that throws before the physics ends the tick with nothing changed. Otherwise the motion is `Physics.Step` over the clamped delta, and the getter is read again: a throw ends the tick. Else the new reading is announced exactly when it differs from the old one, and another tick is scheduled exactly when velocity or acceleration is positive. |
| LegacySpinnerWheel.LegacyWheel.Start | client/components/spinner-wheel.js:79-110 | Draws the launch acceleration, notes the clock and ticks at once. A getter that throws first leaves only the new acceleration and the noted reading. Otherwise the motion is `Physics.Step` from the old rotation and velocity, over the time between the two readings. A throw after the physics ends the tick. Else a changed reading is announced and another tick is always scheduled. |
| LegacySpinnerWheel.LegacyWheel.Updated | client/components/spinner-wheel.js:58-67 | A change of `rules` announces the getter's reading, unless the getter throws while `dispatchRuleChange` builds the event. Then it reports the throw and sends nothing. Any other change announces nothing. |
| ItemSidebar.MinCap | client/components/items/item-sidebar.js:84-85 | The smallest cap is at most every rule's `restrict[id] ?? max` and equal to one of them. |
| ItemSidebar.Quantity | client/components/items/item-sidebar.js:82-88 | The quantity is never negative. It is at most every positive bound (each cap and `max` less the reductions). When positive it equals one of them; it is 0 only when some bound is not positive. |
| ItemSidebar.Limits | client/components/items/item-sidebar.js:73-86 | `[...personalRules, teamRule]` converts entry by entry exactly when no entry is `undefined`. |
| ItemSidebar.ItemsToBring | client/components/items/item-sidebar.js:65-92 | A missing input gives `[]`. It throws exactly when the catalogue is non-empty and a rule is `undefined`. Otherwise there is one entry per item, in order, with id, name, min and max copied and the quantity of `Quantity`. |
| ItemSidebar.UnconstrainedTakesMax | client/components/items/item-sidebar.js:85-86 | An item no rule restricts or reduces, with `max` ≥ 0, gets exactly `max`. |
| ItemSidebar.ReducedNone | client/components/items/item-sidebar.js:86 | With no rule reducing an item the reductions add up to 0. |
| ItemSidebar.ReducedRemove | client/components/items/item-sidebar.js:86 | Taking one rule out of the list takes its reduction out of the sum. |
| ItemSidebar.ReducedPermutation | client/components/items/item-sidebar.js:86 | The reductions add up to the same sum in any order of the rules. |
| ItemSidebar.QuantityPermutation | client/components/items/item-sidebar.js:82-88 | Reordering the rules changes no quantity. |
| ItemSidebar.DisplayOf | client/components/items/item-sidebar.js:52-56 | The shown number is `max(min, quantity)`: at least both, and equal to one. At most one of `under`, `none` and `less` is set. |
| ItemSidebar.UnmarkedTakesMax | client/components/items/item-sidebar.js:52-56 | An entry with no marker, and a non-negative quantity and `min`, is taken at `max` or more and above `min`. |
| ItemSidebar.Sidebar.constructor | client/components/items/item-sidebar.js:12-16 | Starts with no inputs and an empty list. |
| ItemSidebar.Sidebar.CalculateItemsToBring | client/components/items/item-sidebar.js:65-92 | Stores the calculated list. When the calculation throws, it reports so and keeps the old list. |
| ItemSidebar.Sidebar.Updated | client/components/items/item-sidebar.js:18-22 | Recalculates exactly when `personalRules`, `teamRule` or `items` is among the changed keys. Otherwise the list is unchanged. |
| RulePanel.HandleAll | client/components/rules/rule-panel.js:39-43 | Same length, every rule active, every other field unchanged. |
| RulePanel.HandleNone | client/components/rules/rule-panel.js:45-49 | Same length, every rule inactive, every other field unchanged. |
| RulePanel.HandleToggleRule | client/components/rules/rule-panel.js:51-60 | Same length. Entry `index` has `active` flipped and nothing else changed; every other entry is unchanged. |
| RulePanel.ToggleTwice | client/components/rules/rule-panel.js:51-60 | Toggling the same entry twice gives the list back. |
| RulePanel.TogglesCommute | client/components/rules/rule-panel.js:51-60 | Toggles of two entries commute. |
| RulePanel.AllNoneIdempotent | client/components/rules/rule-panel.js:39-49 | `handleAll` and `handleNone` are idempotent, and after either of them the other gives the same list as on the original. |
| RulePanel.AllOnActive | client/components/rules/rule-panel.js:39-43 | On an all-active list `handleAll` changes nothing. |
| PhasmoWheel.ReplaceAt | client/phasmo-wheel.js:66-70 | Inside the list the entry at `index` is replaced. At or past the end the value is appended. |
| PhasmoWheel.Activated | client/phasmo-wheel.js:93-99 | Same length, every rule active, every other field unchanged. |
| PhasmoWheel.App.constructor | client/phasmo-wheel.js:17-25 | Four default names, four empty personal-rule slots, and no team rule or catalogues yet. |
| PhasmoWheel.App.HandleNameChange | client/phasmo-wheel.js:62-71 | The names become the replace-at-index of the new name. |
| PhasmoWheel.App.HandleRuleChange | client/phasmo-wheel.js:77-86 | The current personal rules become the replace-at-index of the reported rule. |
| PhasmoWheel.App.HandleTeamRuleChange | client/phasmo-wheel.js:73-75 | The current team rule becomes the reported rule. |
| PhasmoWheel.App.LoadData | client/phasmo-wheel.js:92-102 | Both rule catalogues are stored with every rule active, the active lists equal the full lists, and the items are stored as fetched. |
| PhasmoWheel.RenameKeepsPlayers | client/phasmo-wheel.js:62-71 | A rename at a player's index keeps the number of players, renames that player and no other. |
| PhasmoWheel.ReplaceAtTwice | client/phasmo-wheel.js:66-70 | Two replacements at one index keep only the second. |
| PhasmoWheel.ReplaceAtSame | client/phasmo-wheel.js:66-70 | Putting back the value already at an index changes nothing. |
| BaseElement.ToBackingKey | client/BaseElement.js:4 | The backing key is the prefix followed by the key. |
| BaseElement.FirstOccurrence | client/BaseElement.js:5 | The first position where the prefix occurs, with none earlier, or -1 when it occurs nowhere. |
| BaseElement.OccursShift | client/BaseElement.js:5 | An occurrence one place further in is an occurrence in the string without its first character. |
| BaseElement.FromBackingKey | client/BaseElement.js:5 | Removes the first occurrence of the prefix wherever it is, and leaves a string without one unchanged. |
| BaseElement.BackingKeyRecognised | client/BaseElement.js:4-6 | Every backing key is recognised as one. |
| BaseElement.StripLeadingPrefix | client/BaseElement.js:5-6 | A string that starts with the prefix loses exactly that leading prefix. |
| BaseElement.BackingKeyRoundTrip | client/BaseElement.js:4-5 | `fromBackingKey(toBackingKey(k)) == k` for every key. |
| BaseElement.BackingKeysAreImages | client/BaseElement.js:3-6 | `isBackingKey` holds exactly for the strings that are some key's backing key. |
| BaseElement.OnlyFirstOccurrenceRemoved | client/BaseElement.js:5 | A key that itself starts with the prefix keeps that copy through the round trip. |
| BaseElement.MiddleOccurrenceRemoved | client/BaseElement.js:5-6 | `"a__backing_b"` is no backing key, yet stripping it gives `"ab"`. |
| BaseElement.Element.constructor | client/BaseElement.js:46-52 | Nothing stored, not connected, nothing rendered yet. |
| BaseElement.Element.Set | client/BaseElement.js:10-24 | Always reports success. A non-backing key or an unchanged value changes nothing. A new value is stored; while connected the element renders once, and `updated` hears the plain key with the old value. |
| BaseElement.Element.SetProperty | client/BaseElement.js:36-38 | A declared property's setter goes through the trap under its backing key, so `updated` hears the declared key itself. |
| BaseElement.Element.ConnectedCallback | client/BaseElement.js:54-58 | Marks the element connected and renders once. |
| BaseElement.Element.DisconnectedCallback | client/BaseElement.js:60-62 | Marks the element disconnected. |

## Left out

- Canvas drawing (`renderCanvas` in both wheels), the `ResizeObserver`, and the lit-html templates and `render` methods: presentation only. The element's render is a counter.
- `setTimeout`/`clearTimeout`: a scheduled tick is the returned `scheduled` flag. `Date.now()` and `Math.random()` are parameters.
- IEEE-754 rounding: angles, weights and the physics are exact reals. Drift of the floating-point walk is not captured.
- `fetch` in `loadData`, `dispatchEvent`/`CustomEvent`, and `handleSpinAll`'s `document.querySelectorAll`: I/O and DOM. `LoadData` takes the fetched lists as parameters. A dispatched event is a returned value.
- The fallback getter over attributes (`Object.defineProperty` with `getAttribute`/`hasAttribute`): JavaScript reflection. A stored `None` and a missing slot both read as `undefined`.
- Concurrency: the `async` set trap is modelled as running to completion, and ticks as running one at a time.
- JavaScript object identity: two rules compare equal (`===`) when their contents are equal, and a fresh `{}` is never identical to anything.
- SpinnerWheel.Weighted: the current wheel is modelled only for rule lists whose weights are present and non-negative, with a positive total when the list is non-empty. A missing weight would make the sums NaN.
- SpinnerWheel.Wheel.RotateToRule: requires a settle that yields a finite number. A `{}` target (no `weight`) would set the rotation to NaN. An empty list has a `totalWeight` of 0, so the rotation would become −Infinity, or NaN for a target of weight 0. Neither is modelled.
- SpinnerWheel.Wheel.Updated: carries the same requirement whenever its guard calls `rotateToRule`.
- LegacySpinnerWheel.LegacyWeighted: the earlier wheel is modelled only for weights that are missing or non-negative, with a positive total for a non-empty list. A total of 0 would divide by zero, which is not modelled.
- LegacySpinnerWheel.FirstTurnArcs: states the arcs for the turn just below the start angle (a window aligned with a pass). Other windows follow from `ReadingPeriodic`; a window not aligned with a pass is not stated.
- ItemSidebar.QuantityPermutation: the order-independence is stated on the converted rule list (`Limits`), not on the raw `[...personalRules, teamRule]`.
- RulePanel.HandleToggleRule: requires an index inside the list, as the panel renders one toggle per rule. With an index past the end, `rule` would be `undefined` and reading `rule.active` would throw a TypeError before any `change` event is sent. That is not modelled.
- PhasmoWheel.App.HandleNameChange: the index is a natural number. A `parseInt` that yields `NaN` is not modelled.
- PhasmoWheel.App.HandleRuleChange: the index is a natural number, as for names.
- The rule sidebar, the spinner panel, the help sidebar and the server are not part of this model.
