# hunter-mark encounter store, modelled in Dafny

hunter-mark is a combat tracker for tabletop role-playing games. It keeps one **active encounter**: a
name, a round counter, a list of combatants (hit points, armour class, initiative) and the id of
the combatant whose turn it is. It also keeps a **library** of reusable combatants and a table of
**saved encounters**, both in the browser's database.

This project models the store that owns that state, in both copies the repository ships:
- the monolithic `src/store.ts`;
- the split one: `src/store/utils.ts`, `src/store/actions/combatants.ts` and `src/store/actions/encounters.ts`.

The two copies behave the same, and every action is modelled once. The project also models the logic
of the main screen in `src/App.tsx`:
- the parser of the add form's name field (`"Goblin x4"`);
- the loop that turns one submission into numbered additions;
- the values derived from the active encounter.

Layout (one module per file, imported by name):

| file | module | what it holds |
|---|---|---|
| `Wrappers.dfy` | `Wrappers` | `Option` |
| `Text.dfy` | `Text` | whitespace trimming, decimal digits, the name order the library is listed in |
| `Types.dfy` | `Types` | `Combatant`, `Encounter` (integer round), `StoredEncounter` (raw round as read back), lookups by id |
| `StoreUtils.dfy` | `StoreUtils` | `blankEncounter`, the stable descending sort by initiative, `normalizeEncounter` |
| `CombatantActions.dfy` | `CombatantActions` | the next encounter computed by each combatant action, as pure functions, with their lemmas |
| `EncounterActions.dfy` | `EncounterActions` | the same for the turn and encounter actions (next turn, save name, load, delete, init) |
| `Database.dfy` | `Database` | class `Db`: two id-keyed tables with `put`, `delete` and the two ordered listings |
| `Store.dfy` | `Store` | class `Store`: the four store fields and one method per action, which calls the pure function and writes to `Db` |
| `App.dfy` | `App` | `parseNameAndCount`, the bulk-add loop as a method over a `Store`, and the derived display values |

Other design choices:
- **Ids and instants:** ids come from `makeId` and instants from `nowIso`. Both are parameters here, and an instant is a `nat` (milliseconds since the epoch).
- **Early returns:** an action that returns early is a function returning `Option<Encounter>`. `None` means the store changes nothing and writes nothing.
- **The central invariant:** `ActiveConsistent` holds of the blank encounter. It says nobody is active exactly when the list is empty, and otherwise the active id names a combatant. Every combatant and turn action is proved to preserve it.
- **Persistence:** every combatant and turn action writes the active encounter to the saved table (`persistEncounter`), so an encounter is durable before any explicit save. Those `Store` methods put the new encounter into `db.encounters`.

## Model

| member | source | states |
|---|---|---|
| `Text.Trim` | src/App.tsx:21 | `trim`: the result is a slice of the input with only whitespace before and after it, has no whitespace at either end, and is empty exactly when the input is all whitespace |
| `Text.TrimOfTrimmed` | src/App.tsx:29 | text without surrounding whitespace is left unchanged by trimming |
| `Text.TrimIdempotent` | src/App.tsx:29 | trimming twice is the same as trimming once |
| `Text.NatToString` | src/store/actions/combatants.ts:85 | the number printed inside a name: at least one digit, no leading zero, and it reads back as the number |
| `Text.NatToStringInjective` | src/store/actions/combatants.ts:85 | two different numbers print differently, so numbered names differ |
| `Text.NameLeReflexive` | src/store/actions/combatants.ts:42 | the library's name order is reflexive |
| `Text.NameLeTotal` | src/store/actions/combatants.ts:42 | any two names are comparable in the library's order |
| `Text.NameLeTransitive` | src/store/actions/combatants.ts:42 | the library's name order is transitive |
| `Types.FindIndex` | src/store/actions/encounters.ts:50 | `findIndex` by id: the first position carrying the id; none exactly when no combatant has it |
| `Types.FindById` | src/store/actions/combatants.ts:75 | `find` by id: the combatant at the first position carrying the id; none exactly when no combatant has it |
| `Types.FindIndexDistinct` | src/store/actions/encounters.ts:50 | with distinct ids, looking up the id at position i gives i |
| `StoreUtils.BlankEncounter` | src/store/utils.ts:14-25 | name "Encounter", round 1, no combatants, no active id, `createdAt == updatedAt` |
| `StoreUtils.InsertByInitiative` | src/store/utils.ts:27-28 | one insertion step of the stable sort: the result stays non-increasing and gains exactly the inserted combatant |
| `StoreUtils.SortByInitiativeDesc` | src/store/utils.ts:27-28 | the result is a permutation of the input, non-increasing in initiative, and equal initiatives keep their input order (stable sort) |
| `StoreUtils.InsertKeepsTies` | src/store/utils.ts:28 | insertion puts the new combatant in front of the input's equal-initiative combatants |
| `StoreUtils.SameTiesSameOrder` | src/store/utils.ts:28 | two non-increasing lists with the same tie order are equal |
| `StoreUtils.SortIsUnique` | src/store/utils.ts:28 | any non-increasing rearrangement that keeps tie order is the sort's result, so the sort is fully determined |
| `StoreUtils.FirstInOrder` | src/store/utils.ts:27-28 | the head of the order is a member with the highest initiative, the earliest added among those |
| `StoreUtils.HeadIsHighestEarliest` | src/store/utils.ts:27-28 | the head of the order sits at a position with the highest initiative, and every combatant before that position has a lower one |
| `StoreUtils.SortKeepsIds` | src/store/utils.ts:27-28 | sorting keeps the set of ids |
| `StoreUtils.SortKeepsDistinct` | src/store/utils.ts:27-28 | sorting a list with distinct ids gives a list with distinct ids |
| `StoreUtils.NormalizeRound` | src/store/utils.ts:36-40 | the repaired round is at least 1; it is 1 when the round is missing, non-numeric or non-finite, and max(1, floor(round)) when finite |
| `StoreUtils.NormalizeEncounter` | src/store/utils.ts:34-41 | only the round changes, and it becomes the repaired round |
| `StoreUtils.NormalizeKeepsValidRound` | src/store/utils.ts:39 | an encounter whose integer round is at least 1 is left exactly as it is |
| `StoreUtils.NormalizeIdempotent` | src/store/utils.ts:34-41 | normalising twice is the same as normalising once |
| `CombatantActions.NewCombatant` | src/store/actions/combatants.ts:16-28 | the new combatant: the given id, the trimmed name, hit points, AC and initiative copied without clamping, no conditions or actions, both timestamps now |
| `CombatantActions.AddCombatant` | src/store/actions/combatants.ts:30-35 | exactly one combatant appended at the end, earlier ones unchanged; a set active id is kept, otherwise the newcomer becomes active |
| `CombatantActions.CopyOf` | src/store/actions/combatants.ts:54-59 | a library copy equals its template except for id and timestamps |
| `CombatantActions.AddCombatantFromLibrary` | src/store/actions/combatants.ts:47-67 | nothing happens exactly when the id is not in the listed library; otherwise the template's copy is appended as `addCombatant` does |
| `CombatantActions.DuplicateName` | src/store/actions/combatants.ts:85 | copy number i is named "<name> i+2": the source name, a space, then digits |
| `CombatantActions.DuplicatesOf` | src/store/actions/combatants.ts:80-89 | one copy per id, named "<name> 2" onwards, equal to the source apart from id, name and timestamps |
| `CombatantActions.DuplicateCombatant` | src/store/actions/combatants.ts:73-95 | nothing happens exactly when no combatant has the source id; otherwise the copies are appended and round and active id stay |
| `CombatantActions.FirstCopyName` | src/store/actions/combatants.ts:85 | the first copy is named "<name> 2" |
| `CombatantActions.DuplicateNumberingRestarts` | src/store.ts:175-184 | duplicating the same source twice names both first copies "<name> 2" |
| `CombatantActions.WithoutIdMembers` | src/store/actions/combatants.ts:103 | the filtered list holds exactly the combatants whose id differs |
| `CombatantActions.WithoutIdIds` | src/store/actions/combatants.ts:103 | filtering removes exactly that id from the set of ids |
| `CombatantActions.WithoutIdAppend` | src/store/actions/combatants.ts:103 | filtering distributes over concatenation, so the order of what is kept is unchanged |
| `CombatantActions.WithoutAbsentId` | src/store/actions/combatants.ts:103 | filtering out an absent id changes nothing |
| `CombatantActions.DeleteCombatant` | src/store/actions/combatants.ts:101-114 | every combatant with the id is removed; round resets to 1 exactly when none remain; deleting the active one hands the turn to the head of the initiative order of the rest (or nobody), and any other deletion keeps the active id |
| `CombatantActions.DeleteActiveHandsTurnToHighest` | src/store/actions/combatants.ts:104-106 | after deleting the active combatant, the new active one has the highest initiative of those left and is the earliest of its ties |
| `CombatantActions.DeleteLastCombatant` | src/store.ts:198-210 | deleting the last combatant leaves round 1 and no active id |
| `CombatantActions.AddThenDelete` | src/store/actions/combatants.ts:30-110 | deleting a just-added combatant with a fresh id restores the combatants and the active id |
| `CombatantActions.ClampHp` | src/store/actions/combatants.ts:126 | `max(0, min(maxHp, hp + delta))`: never negative, never above a non-negative maximum, exact when already in range, the maximum when above it, and 0 under a negative maximum |
| `CombatantActions.WithHp` | src/store/actions/combatants.ts:127-131 | only the current hit points (clamped) and `updatedAt` change |
| `CombatantActions.UpdateHp` | src/store/actions/combatants.ts:120-138 | each combatant with the id gets clamped hit points, every other combatant is untouched; round and active id stay |
| `CombatantActions.UpdateHpKeepsHpInRange` | src/store.ts:223 | after `updateHp`, every hit point total lies in [0, maxHp], given that the others already did and the target's maximum is not negative |
| `CombatantActions.UpdateHpZeroPullsDown` | src/store.ts:217-229 | a current hit point total above the maximum, which `addCombatant` allows, is pulled down to the maximum even by a delta of 0 |
| `CombatantActions.AddCombatantKeepsActiveConsistent` | src/store.ts:124-129 | `addCombatant` preserves the active-id invariant |
| `CombatantActions.AddFromLibraryKeepsActiveConsistent` | src/store.ts:157-162 | `addCombatantFromLibrary` preserves the active-id invariant |
| `CombatantActions.DuplicateKeepsActiveConsistent` | src/store.ts:186-190 | `duplicateCombatant` preserves the active-id invariant |
| `CombatantActions.DeleteKeepsActiveConsistent` | src/store.ts:198-211 | `deleteCombatant` preserves the active-id invariant |
| `CombatantActions.UpdateHpKeepsActiveConsistent` | src/store.ts:219-235 | `updateHp` preserves the active-id invariant |
| `CombatantActions.AddCombatantKeepsDistinct` | src/store.ts:126 | appending a combatant with a fresh id keeps ids distinct |
| `CombatantActions.DuplicateKeepsDistinct` | src/store.ts:175-188 | appending copies with fresh, pairwise distinct ids keeps ids distinct |
| `CombatantActions.WithoutIdKeepsDistinct` | src/store.ts:198 | filtering keeps ids distinct |
| `CombatantActions.UpdateHpKeepsDistinct` | src/store.ts:219-229 | `updateHp` keeps ids distinct |
| `EncounterActions.TurnIndex` | src/store/actions/encounters.ts:49-50 | the position of the active id in the order; with no active id, position 0 |
| `EncounterActions.Following` | src/store/actions/encounters.ts:51 | `(i + 1) mod n` |
| `EncounterActions.NextTurn` | src/store/actions/encounters.ts:42-60 | nothing happens exactly when there are no combatants; otherwise only round, active id and `updatedAt` may change |
| `EncounterActions.NextTurnMoves` | src/store/actions/encounters.ts:49-58 | from position i the turn moves to i+1, and from the last position to the head with round + 1; from an id not found it moves to the head with the round unchanged |
| `EncounterActions.NextTurnMakesActiveConsistent` | src/store/actions/encounters.ts:49-58 | after `nextTurn` on any non-empty encounter the active id names a current combatant, even when it was missing or stale before |
| `EncounterActions.LoneCombatantWithoutActiveIdWraps` | src/store/actions/encounters.ts:49-53 | a lone combatant with no active id wraps: it becomes active and the round goes up by one |
| `EncounterActions.StaleActiveIdRestarts` | src/store/actions/encounters.ts:49-53 | a stale active id moves the turn to the head of the order without changing the round |
| `EncounterActions.OneTurn` | src/store/actions/encounters.ts:50-53 | with distinct ids, one turn from position i of the order moves to the following position |
| `EncounterActions.NextTurnCycles` | src/store/actions/encounters.ts:49-58 | with distinct ids, repeated turns walk the initiative order cyclically |
| `EncounterActions.FullCycle` | src/store/actions/encounters.ts:49-53 | n turns over n combatants with distinct ids, from an active id that is found, return to the same active id with the round up by exactly one |
| `EncounterActions.SaveName` | src/store/actions/encounters.ts:70 | the trimmed argument when it is not blank, else the current name when it is not empty, else "Encounter"; never empty |
| `EncounterActions.SaveNameStable` | src/store/actions/encounters.ts:70 | saving again without a name keeps the saved name |
| `EncounterActions.SaveNameOfTrimmed` | src/store/actions/encounters.ts:70 | a non-empty trimmed argument is taken as it is |
| `EncounterActions.Saved` | src/store/actions/encounters.ts:68-72 | only the name and `updatedAt` change |
| `EncounterActions.FindEncounter` | src/store/actions/encounters.ts:80 | `find` by id over the saved list: the first match, none exactly when absent |
| `EncounterActions.LoadEncounter` | src/store/actions/encounters.ts:79-85 | none exactly when the id is not listed; otherwise the normalised first match, whose round is at least 1 |
| `EncounterActions.LoadOfUniqueEncounter` | src/store/actions/encounters.ts:80-84 | loading an id held by one listed encounter with a valid round returns that encounter unchanged |
| `EncounterActions.ActiveAfterDelete` | src/store/actions/encounters.ts:92-93 | the active encounter is replaced only when its id was deleted: by the head of the refreshed list (not normalised), else by a blank encounter |
| `EncounterActions.NormalizeAll` | src/store/actions/encounters.ts:27 | each saved encounter is normalised, in place |
| `EncounterActions.NormalizeAllRepairs` | src/store/actions/encounters.ts:27 | after normalising, every round is at least 1, and normalising again changes nothing |
| `EncounterActions.InitialActive` | src/store/actions/encounters.ts:28-34 | precedence: the normalised draft, else the first normalised saved encounter, else the current active encounter |
| `Database.Db.PutCombatant` | src/store/actions/combatants.ts:41 | insert or replace the library record under its id; the encounter table is untouched |
| `Database.Db.DeleteCombatant` | src/store/actions/library.ts:6 | remove the id from the library table (a missing id is no error) |
| `Database.Db.PutEncounter` | src/store/utils.ts:30-32 | insert or replace the saved encounter under its id |
| `Database.Db.DeleteEncounter` | src/store/actions/encounters.ts:88 | remove the id from the saved table |
| `Database.Db.CombatantsByName` | src/store/actions/combatants.ts:42 | every library record exactly once, names in non-decreasing order |
| `Database.Db.EncountersByRecency` | src/store/actions/encounters.ts:75 | every saved encounter exactly once, the most recently updated first |
| `Store.ListedEncounterLoadsBack` | src/store/actions/encounters.ts:73-84 | a saved encounter is found again by `loadEncounter` with its round repaired, and exactly as it was saved when its round was at least 1 |
| `Store.Store.constructor` | src/store/index.ts:8-16 | over a valid database: not loading, empty library and saved lists, a blank active encounter, and the store invariant holds |
| `Store.Store.Init` | src/store/actions/encounters.ts:20-36 | the library listed by name, the saved encounters listed by recency and normalised, and the active encounter chosen by precedence; loading ends false |
| `Store.Store.CreateEncounter` | src/store.ts:103-105 | only the active encounter changes, to a blank one |
| `Store.Store.Commit` | src/store/utils.ts:30-32 | the new encounter becomes active and is put into the saved table |
| `Store.Store.PutInLibrary` | src/store/actions/combatants.ts:40-44 | the record goes into the library table and the library is listed again |
| `Store.Store.ListEncounters` | src/store/actions/encounters.ts:75 | the saved list becomes the saved table, most recent first |
| `Store.Store.AddCombatant` | src/store.ts:107-140 | the active encounter becomes `addCombatant`'s result and is written; with `saveToLibrary` the very same record, id included, goes into the library, which is listed again |
| `Store.Store.AddCombatantFromLibrary` | src/store.ts:142-166 | without the template nothing changes and nothing is written; otherwise the encounter with the copy becomes active and is written |
| `Store.Store.DuplicateCombatant` | src/store.ts:168-194 | without the source nothing changes and nothing is written; otherwise the encounter with the copies becomes active and is written |
| `Store.Store.DeleteCombatant` | src/store.ts:196-215 | the encounter after deletion becomes active and is written; the invariant is kept |
| `Store.Store.UpdateHp` | src/store.ts:217-238 | the encounter after the hit point change becomes active and is written; the invariant and hit points in range are kept |
| `Store.Store.NextTurn` | src/store.ts:240-264 | with no combatants nothing changes and nothing is written; otherwise the turn advances, the encounter is written, and its active id names a combatant |
| `Store.Store.SaveActiveEncounter` | src/store.ts:266-277 | the renamed encounter is written and becomes active; the saved list is listed again, and `loadEncounter` then gives back that encounter with its round repaired, unchanged when the round was at least 1 |
| `Store.Store.LoadEncounter` | src/store.ts:279-285 | an unlisted id changes nothing; otherwise the normalised match becomes active; nothing is written |
| `Store.Store.DeleteEncounter` | src/store.ts:287-297 | the id leaves the saved table and the list; a deleted active encounter is replaced by the head of the list or a blank one |
| `Store.Store.DeleteLibraryCombatant` | src/store.ts:299-303 | the id leaves the library table, and the relisted library no longer holds it |
| `App.AtLeastOne` | src/App.tsx:30 | `Math.max(1, n)` |
| `App.ParseNameAndCount` | src/App.tsx:20-32 | the count is always at least 1 and the name is trimmed |
| `App.ParseAtFinalSuffix` | src/App.tsx:22-31 | when the trimmed text is a prefix, one whitespace, x or X, then digits, the result is the trimmed prefix and max(1, digits) |
| `App.ParseWithoutSuffix` | src/App.tsx:21-25 | without such a suffix the result is the trimmed input with count 1 |
| `App.ParseNameWithCount` | src/App.tsx:22-30 | "<name> x<digits>" and "<name> X<digits>" give the name and the count, and "x0" gives count 1; the split is at the final suffix, so "a x2 x3" gives "a x2" and 3 |
| `App.BulkName` | src/App.tsx:98 | with count > 1 the name is numbered from 1, otherwise it is unchanged |
| `App.BulkInputs` | src/App.tsx:85-99 | one input per count, numbered, with the form's other fields |
| `App.BulkAdd` | src/App.tsx:94-102 | the encounter after one `addCombatant` per input, in order, each call with its own id and instant; it keeps its id (its closed form is `App.BulkAddAppends`) |
| `App.BulkAddAppends` | src/App.tsx:94-102 | bulk adding appends the built combatants in order, makes the first new one active when nobody was, stamps the instant of the last call, and keeps the encounter's other fields |
| `App.NumberedNameTrimmed` | src/store/actions/combatants.ts:18 | a numbered name survives the trimming in `addCombatant` |
| `App.BulkAddNames` | src/App.tsx:94-102 | the combatants added are named "<name> 1" … "<name> count" when count > 1, else "<name>", and carry the form's values, their own ids and the instants of their own calls |
| `App.BulkCombatantName` | src/App.tsx:98 | the combatant built from input i is named as the loop names it |
| `App.PutAll` | src/store/actions/combatants.ts:40-41 | the library table after one `put` per added combatant: its keys are the old keys plus the added ids |
| `App.PutAllDistinct` | src/store/actions/combatants.ts:40-41 | with distinct ids, each added combatant is stored under its id and every other record is unchanged |
| `App.AddOne` | src/App.tsx:95-101 | one `addCombatant` call of the loop: the encounter and the saved table as `addCombatant` leaves them; with `saveToLibrary` the record is put and the library relisted, otherwise the library table and list are untouched |
| `App.AddEach` | src/App.tsx:94-102 | the loop of `addCombatant` calls leaves the active encounter equal to `BulkAdd` and written; with `saveToLibrary` every built combatant is put into the library table in turn and the library is relisted; otherwise the library table and list are untouched |
| `App.HandleAddCombatant` | src/App.tsx:77-106 | an empty parsed name adds nothing and writes nothing, and the library list stays; otherwise the parsed count of numbered combatants is added in order, with the library effects of `App.AddEach` |
| `App.OrderedCombatants` | src/App.tsx:72-75 | a permutation of the combatants, non-increasing in initiative, ties in the order added |
| `App.ActiveCombatant` | src/App.tsx:108-109 | the first combatant of the initiative order carrying the active id; none exactly when the active id is unset or names nobody |
| `App.ActiveLabel` | src/App.tsx:110 | "None" when the active id names nobody, otherwise the name of the first combatant of the initiative order carrying it |
| `App.ActiveLabelIsName` | src/App.tsx:108-110 | with distinct ids, the label is the name of the active combatant |
| `App.IsPreviousTurnDisabled` | src/App.tsx:111-114 | true exactly when there are no combatants, or the round is 1 and the active id is the head of the initiative order |
| `App.PreviousTurnEnabledAfterNextTurn` | src/App.tsx:111-114 | after a turn from a known position, "previous turn" is enabled |

## Left out

- Rendering, hooks, styling and the components under `src/components/` are not modelled. The localStorage mirror of the active encounter (src/App.tsx:68-70) is browser I/O and is not modelled either.
- The database library (`src/db.ts`, `src/db/`) is replaced by class `Db`: two maps with put, delete and ordered listings. The order of records with equal names, or with equal update times, is left unspecified.
- Asynchrony is not modelled: `await`, `Promise.all` and writes nobody waits for. Each action is one atomic step.
- `readDraftEncounter` (localStorage plus `JSON.parse`) is I/O. `Store.Store.Init` takes the draft as an `Option<StoredEncounter>` parameter.
- `makeId` and `nowIso` are parameters. Fresh ids are stated as preconditions wherever a property needs them.
- CombatantActions.DuplicateCombatant: all copies and the encounter share one instant. The source reads the clock once per copy and once more for the encounter.
- CombatantActions.UpdateHp: the target and the encounter share one instant; the source reads the clock twice.
- Store.Store.DuplicateCombatant: the count argument is the number of fresh ids passed in, and so cannot be negative or fractional.
- JavaScript number semantics are not modelled:
  - hit points, AC, initiative and rounds are integers;
  - the form's `Number(...)` conversions are not modelled, and the form fields reach the model as integers;
  - a finite non-integer round is kept only as a `real` inside a `StoredEncounter`.
- App.ParseNameAndCount: a digit string is read as an exact natural number, so huge counts do not lose precision or become `Infinity`.
- Whitespace is the ASCII set (space, tab to carriage return) rather than the full Unicode set of `\s` and `trim`. Names are ordered by Unicode scalar value, whereas the database orders them by UTF-16 code unit; the two orders differ only for characters outside the Basic Multilingual Plane.
- The saved table holds integer rounds, so a malformed round reaches `normalizeEncounter` only through the draft.
- `setCurrentHp`, `setMaxHp`, `setAc` and `previousTurn` are declared (src/store/types.ts:23-26), and `setInitiative` and `setStatBlockUrl` are only destructured (src/App.tsx:50-51) and called (src/App.tsx:154-155). None of the six is implemented anywhere in the store, so they are not modelled.
- The form reset and input focus after adding (src/App.tsx:104-105) are interface effects and are not modelled.
