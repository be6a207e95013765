# Combat rules engine of a turn-based spell game — Dafny model

This project models the rules engine of a spell-combat encounter. The player
casts one spell per turn at a group of enemies. The enemies that survive then
act, one after another, and the next turn starts with the next spell slot.

- **State and reducer** (`Context`). The game state is one record: player
  health, enemies, spells, spell slots, the current slot, the current spell
  and the turn flag. The reducer is a pure function over six actions:
  - `changeSpell`, `endTurn`, `startTurn` and `enemiesDied` are field updates;
  - `castSpell` and `enemyAction` apply a copy-on-write mutation.
- **Spell effects** (`Fireball`, `ShadowBolt`). Fireball deals the
  slot-adjusted power to one target. Shadow Bolt adds a curse stack, then
  deals the slot-adjusted power once per stack.
- **Turn sequencing** (`Actions`). `makeATurn` runs these steps in order:
  1. end the turn;
  2. cast the current spell;
  3. collect the dead;
  4. remove them;
  5. let each survivor act in index order;
  6. start the next turn, but only if some enemy is left.

  It is modelled as a `Store` class. The class holds the state and a ghost
  log of every dispatched action. The specification function `TakeTurn` gives
  the state and the log a turn produces.

How the model represents the source:
- A state is a value (`datatype State`). Copy-on-write updates therefore never
  change their input.
- Health is an unbounded `int` and may go negative.
- A slot's power multiplier is the rational `num / den` with `den > 0`.
  `Math.ceil(power * slotPower)` becomes the integer ceiling `TotalPower`.
- Reading a property of `undefined` throws in the source. Here it becomes an
  `Err` result. This covers a spell, slot or target index outside its list,
  and an empty Fireball target list.
- The spell's `cast` and the enemy's `act` are in files outside this model.
  They are parameters (`CastFn`, `ActFn`). Each one maps a variant name, an
  index and the current snapshot to the one mutation it dispatches.

Behaviour the model takes exactly as the code has it, where a stricter rule might be expected:
- `changeSpell` does not check its index.
- `enemiesDied` ignores out-of-range and repeated indices. It does not reject
  them.
- `startTurn` tests `currentSlot == length - 1`. It does not compute a
  modulus. They agree whenever the slot is inside the list. Outside it they can
  differ: slot 5 of 3 gives 6, not 0.
- The enemy that acts at index `i` uses the name at position `i` of the list
  read after the cast and before the dead were removed (`index.ts:48`). It
  does not use the name of the survivor now at that index.
  `StaleVariantName` shows the case where the two differ.
- An index that is out of range is not turned into an error transition. The
  source throws, and here that becomes an `Err` result or the end of the turn.

## Model

| member | source | states |
|---|---|---|
| Resources.TotalPower | src/resources/spells/data/fireball.ts:31 | the result is the least integer d with power * num / den <= d, i.e. (d - 1) * den < power * num <= d * den |
| Context.Reducer | src/App/context.tsx:59-97 | the four non-mutation actions never change player health, spells or spell slots |
| Context.ChangeSpellFrame | src/App/context.tsx:61-66 | `changeSpell` sets `currentSpell` to the given index, with no bounds check, and leaves every other field unchanged |
| Context.EndTurnFrame | src/App/context.tsx:70-75 | `endTurn` makes the turn flag false and leaves every other field unchanged |
| Context.NextSlot | src/App/context.tsx:81-82 | for a slot inside the list, the next slot is (currentSlot + 1) mod the number of slots |
| Context.StartTurnAdvance | src/App/context.tsx:76-84 | `startTurn` makes the turn flag true; the slot wraps to 0 from the last slot and otherwise goes up by one; from a slot in range the new slot is in range and equals (slot + 1) mod length; all other fields are unchanged |
| Context.StartTurnsSlot | src/App/context.tsx:76-84 | from a slot in range, k consecutive `startTurn` actions give slot (slot + k) mod length |
| Context.StartTurnsPeriod | src/App/context.tsx:81-82 | applying `startTurn` as many times as there are slots brings the slot back to its starting value |
| Context.MutationActions | src/App/context.tsx:93-95 | `castSpell` and `enemyAction` (lines 67-69) both yield exactly the mutation applied to the state; the reducer adds nothing |
| Context.EnemiesDiedFrame | src/App/context.tsx:85-91 | `enemiesDied` replaces the enemy list by its index-filtered copy and leaves every non-enemy field unchanged |
| Context.WithoutIndices | src/App/context.tsx:88-90 | the filtered list is never longer than the original |
| Context.KeptPositionsExact | src/App/context.tsx:88-90 | the reference list of kept positions holds exactly the in-range positions not listed, in strictly ascending order |
| Context.WithoutIndicesOrder | src/App/context.tsx:88-90 | the j-th element kept by the filter is the element at the j-th kept position, so survivors keep their relative order |
| Context.WithoutIndicesLength | src/App/context.tsx:88-90 | the new length is the old length minus the number of distinct listed positions inside the list; out-of-range and repeated indices are ignored |
| Context.WithoutNoIndices | src/App/context.tsx:88-90 | an empty index list leaves the enemy list unchanged |
| Context.WithoutIndicesInRange | src/App/context.tsx:88-90 | the filter depends only on which in-range positions are listed |
| Fireball.GetAction | src/resources/spells/data/fireball.ts:27-36 | succeeds exactly when the current spell, the current slot and `targets[0]` all exist; the missing spell and the missing slot give their errors; on success only enemy `targets[0]` changes, its health dropping by `TotalPower` of the spell's power and the slot, its name and afflictions unchanged, and every other enemy and every other field unchanged |
| Fireball.DamageBounds | src/resources/spells/data/fireball.ts:29-34 | the damage d dealt satisfies (d - 1) * den < power * num <= d * den, i.e. power * slotPower <= d < power * slotPower + 1 |
| Fireball.StartingDamage | src/resources/spells/data/fireball.ts:10-34 | with the starting power 10, slot power 1 deals 10 and slot power 3/2 deals 15 |
| ShadowBolt.FirstCurse | src/resources/spells/data/shadow_bolt.ts:36-38 | the search returns the position of the first curse affliction, or nothing when there is no curse |
| ShadowBolt.Hit | src/resources/spells/data/shadow_bolt.ts:36-51 | an existing first curse with k stacks gets k + 1 stacks and the other afflictions stay; without a curse, one curse with one stack is appended at the end; health drops by totalPower times the stacks after the increment; the name is unchanged |
| ShadowBolt.GetAction | src/resources/spells/data/shadow_bolt.ts:32-52 | succeeds exactly when the current slot and the target exist; on success the target becomes `Hit` of itself with the slot-adjusted power computed from the state before the change, and every other enemy and every other field is unchanged |
| ShadowBolt.HitKeepsOneCurse | src/resources/spells/data/shadow_bolt.ts:36-49 | an enemy with at most one curse before the cast has exactly one curse after it |
| ShadowBolt.RepeatedHits | src/resources/spells/data/shadow_bolt.ts:40-51 | n hits with the same totalPower T on an enemy with no curse leave one curse of n stacks appended at the end and take T * (1 + ... + n) health |
| ShadowBolt.NthHitDamage | src/resources/spells/data/shadow_bolt.ts:40-51 | the n-th of those hits deals n * T, and together they deal T * n * (n + 1) / 2 |
| ShadowBolt.TriangleClosedForm | src/resources/spells/data/shadow_bolt.ts:51 | 1 + 2 + ... + n = n * (n + 1) / 2, the closed form of the cumulative stacked damage |
| ShadowBolt.TwoStartingCasts | src/resources/spells/data/shadow_bolt.ts:11-51 | two starting casts (power 6, slot power 1) on an uncursed enemy deal 6 with one stack, then 12 with two stacks |
| ShadowBolt.StrictEquals | src/resources/spells/data/shadow_bolt.ts:31 | strict equality never holds between a string and a number |
| ShadowBolt.Find | src/resources/spells/data/shadow_bolt.ts:31 | `find` returns the first spell of the list that the predicate accepts (every earlier spell is rejected), or nothing when the predicate rejects every spell |
| ShadowBolt.FindSpellAsWritten | src/resources/spells/data/shadow_bolt.ts:31 | the lookup of a spell whose name strictly equals the numeric `currentSpell` always finds nothing; `AsWrittenAlwaysFails` draws the consequence for the cast |
| ShadowBolt.GetActionAsWritten | src/resources/spells/data/shadow_bolt.ts:28-33 | a successful as-written cast could only be the effect for some power |
| ShadowBolt.AsWrittenAlwaysFails | src/resources/spells/data/shadow_bolt.ts:31 | the name-against-index lookup never matches, so the as-written Shadow Bolt fails on every state |
| Actions.DiedIndices | src/resources/actions/index.ts:30-36 | the dead list is never longer than the enemy list |
| Actions.DiedIndicesSound | src/resources/actions/index.ts:30-36 | every listed position is inside the list and holds an enemy with health at most 0 |
| Actions.DiedIndicesAscending | src/resources/actions/index.ts:30-36 | the positions are listed in strictly ascending order |
| Actions.DiedIndicesComplete | src/resources/actions/index.ts:30-36 | every position whose health is at most 0 is listed |
| Actions.DiedIndicesExact | src/resources/actions/index.ts:30-36 | the dead list holds, in strictly ascending order, exactly the positions whose health is at most 0 |
| Actions.RemoveDead | src/resources/actions/index.ts:42-44 | after `enemiesDied` with the dead list, every remaining enemy has positive health and the survivors are the positive-health enemies in their original order |
| Actions.Deaths | src/resources/actions/index.ts:30-44 | a position is in the dead list exactly when its health is at most 0; the dead are listed in ascending order; the survivors have positive health and keep their order |
| Actions.Retaliation | src/resources/actions/index.ts:47-50 | the first k survivors dispatch exactly k `enemyAction` actions |
| Actions.RetaliationOrder | src/resources/actions/index.ts:47-50 | the i-th dispatched action is the mutation for index i, using the variant named at position i of the snapshot and computed on the state left by indices 0 .. i-1 |
| Actions.RetaliationReplay | src/resources/actions/index.ts:47-50 | the retaliation state is the reducer's replay of the actions dispatched |
| Actions.TakeTurn | src/resources/actions/index.ts:13-57 | a turn always dispatches `endTurn` first; its cast, deaths, victory, retaliation and final state are stated by TurnOpening, TurnEnds, TurnDeaths, TurnVictory, TurnWithSurvivors, TurnRetaliation, TurnTail and TurnReplay |
| Actions.TurnEnds | src/resources/actions/index.ts:17-57 | a turn stops after one action exactly when the current spell is missing, and its last action is `startTurn` exactly when the next turn starts |
| Actions.TurnTail | src/resources/actions/index.ts:19-56 | once the spell is known, a turn is `endTurn`, the cast and the removal of the dead, then, if some enemy survives, the retaliation actions and `startTurn`; with no survivor it ends in victory at the post-removal state |
| Actions.TurnOpening | src/resources/actions/index.ts:17-26 | `endTurn` is dispatched first; if the current spell is missing the turn stops there; otherwise the spell at `currentSpell` is cast against the state with the turn flag false, and death detection sees that mutation applied to that state |
| Actions.TurnDeaths | src/resources/actions/index.ts:28-44 | the third action removes the strictly ascending list of exactly the post-cast positions with health at most 0; the survivors all have positive health and keep their order |
| Actions.TurnVictory | src/resources/actions/index.ts:46-55 | with no survivors there are three actions, no enemy acts, `startTurn` is not dispatched, and the turn flag stays as the cast left it |
| Actions.TurnWithSurvivors | src/resources/actions/index.ts:46-52 | with survivors the turn dispatches the opening actions, then the retaliation actions, then `startTurn` |
| Actions.TurnRetaliation | src/resources/actions/index.ts:46-52 | with n survivors, n indices act (no more than the pre-removal list holds), `startTurn` is dispatched exactly once and last, and the turn flag ends true |
| Actions.TurnReplay | src/resources/actions/index.ts:13-57 | the final state of every turn is the reducer's replay of the actions the turn dispatched |
| Actions.StaleVariantName | src/resources/actions/index.ts:48 | when the first of two enemies dies, the survivor acts as the dead enemy's variant |
| Actions.FireballKillScenario | src/resources/actions/index.ts:17-52 | two 10-health enemies and a starting Fireball at index 0: index 0 dies and is removed, the survivor acts once, and the next turn starts |
| Actions.Replay | src/App/context.tsx:105 | replaying an action list through the reducer ends with the turn flag set when the last action is `startTurn` and cleared when it is `endTurn`; ReplayAppend, ReplayKeepsLoadout, RetaliationReplay and TurnReplay state the rest |
| Actions.ReplayAppend | src/App/context.tsx:105 | replaying two lists one after the other is replaying their concatenation |
| Actions.ReplayKeepsLoadout | src/App/context.tsx:59-97 | a list with no `castSpell` and no `enemyAction` leaves player health, spells and spell slots unchanged |
| Actions.Store.constructor | src/App/context.tsx:105 | a new store holds the initial state and an empty action log |
| Actions.Store.Dispatch | src/App/context.tsx:105 | dispatching replaces the state by the reducer's result and appends the action to the log |
| Actions.Retaliate | src/resources/actions/index.ts:47-50 | the loop leaves the store in the `Retaliation` state and appends exactly its actions |
| Actions.CastAndRemoveDead | src/resources/actions/index.ts:20-44 | after `endTurn`, the store holds the post-removal state, the log gains the cast and the `enemiesDied` action with the dead list, and the enemies returned are the post-cast list |
| Actions.Resolve | src/resources/actions/index.ts:19-56 | with the spell known, the store ends in victory at the post-removal state, or with the retaliation and `startTurn` appended and the next turn started |
| Actions.MakeATurn | src/resources/actions/index.ts:13-57 | the method ends as `TakeTurn` says, with the store holding `TakeTurn`'s state and the log extended by `TakeTurn`'s actions |

## Left out

- React provider, contexts and the state and dispatch hooks (`src/App/context.tsx:99-141`): these are UI plumbing. The one exception is the store that the provider creates with the reducer, which `Actions.Store` models.
- Construction of the initial state: the resource registry and the encounter loader are not part of this model.
- The animations: the cast and death animation cues, and the wait for all of them together. They never touch state.
- The thunk mechanism and `await`: `makeATurn` is one sequential method, and the store is a plain object.
- The description text (`getDescription`) of both spells: it is UI text.
- IEEE floating point: slot power is an exact rational, and `Math.ceil` is an exact integer ceiling.
- The behaviour of enemy `act` and of the spell `cast`: these come from files outside this model, so they are parameters. Each is taken to dispatch exactly one mutation. A mutation that itself throws is not modelled, because mutations are total functions.
- Variant lookup by name (`getSpell`, `getEnemy`): an unknown name does not fail here, because the parameters accept any name.
- The Lightning strike spell is not part of this model.
- ShadowBolt.GetAction: takes the spell's base power as an input instead of looking it up, because the source's lookup never succeeds (see Findings).
- Fireball and Shadow Bolt read `action.target` differently. Fireball indexes `target[0]`; Shadow Bolt uses `target` directly as the index. The model gives Fireball a target list and Shadow Bolt a single index.
- Actions.TurnVictory: says the turn flag ends as the cast left it, not that it is false. The cast mutation is a parameter and could set the flag. For a spell that leaves the flag alone, such as Fireball or Shadow Bolt, the flag stays false.
- Player defeat (health at or below 0) is not wired into the turn in the source, so it is not modelled.

## Findings

| source | as written | input that shows it | evidently intended | confidence | as-written member | corrected member |
|---|---|---|---|---|---|---|
| src/resources/spells/data/shadow_bolt.ts:31 | the base power is found by searching the spells for one whose name strictly equals the numeric `currentSpell`; a string never strictly equals a number, so the search finds nothing and the non-null assertion hides a throw | any state, e.g. spells Fireball, Lightning strike, Shadow bolt with `currentSpell` 2 | the cast uses the base power of the current spell; the corrected effect takes that power as an input | not executed; high | ShadowBolt.GetActionAsWritten, ShadowBolt.AsWrittenAlwaysFails | ShadowBolt.GetAction |
