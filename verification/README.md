# ComposeTable bookkeeping, modelled in Dafny

ComposeTable drives an addressable LED strip laid around a gaming table. Several
LED modules each produce one colour per LED: player sides, a countdown timer,
health bars and turn order. Compose screens and view models edit what those
modules show. Colour blending and the animations are floating-point and
coroutine-driven. Underneath them is a layer of discrete bookkeeping, and that
layer is what this project models and proves properties of:

- **Table geometry** (`Table`, from `BaseConfig.kt`). The strip of `ledCount`
  LEDs is cut at `breakPoints` into sides. Each side is a half-open range.
  With sorted breakpoints inside the strip, the sides cover it with no gaps
  and no overlaps.
- **Module configuration** (`ModuleConfigs`, `Controller` and `Settings`).
  - `ModuleConfigRepository` is a table keyed by module id, with upsert,
    delete and maximum priority. After every write it reloads its list.
  - `ModuleController` reconciles that table against the registered modules
    at start-up. It also derives the priority-sorted config list and the
    enabled-module list.
  - `SettingsViewModel.moveModule` renumbers the priorities after a drag.
- **Timer** (`Timer`, `TimerControl` and `TimerScreen`). The timer is a
  state machine with four states. One iteration of the timer job's loop is
  a tick. The view model dispatches start and pause and holds the input
  settings. The screen formats a duration as `HH:MM:SS[.mmm]` and edits it
  one component at a time. The shown percentage never decreases while the
  timer runs, but it does reach 1.0 before the timer finishes: a tick at
  exactly the duration leaves the timer running at 100 % with no time left,
  and only a tick past the end finishes it (`Timer.TickFinishes`).
- **Turn order** (`Turns`, `TurnControl`, `TurnScreen` and `Initiative`).
  - The player order is reconciled against the active players.
  - A reorder is accepted only when it has the same elements.
  - Next and previous wrap around the list.
  - A pseudo-random pick settles on a target, and the LED filter marks the
    active player's chunks.
  - The turn list screen has a two-click reorder selection.
  - The initiative list computes which slot is active and which is on deck.
- **Health, seats and frames** (`Health`, `Players`, `PlayerSides` and
  `Status`).
  - Health and maximum health are clamped.
  - Seats are assigned to sides, and the seat map resolves seated player ids
    to players.
  - Each side of the frame is filled with its player's colour.
  - The status screen splits the strip into per-side lists.
- **UI utilities** (`Keypad`, `Decimal` and `Navigation`).
  - The integer keypad dialog is a string state machine. Submitting it
    parses the input as a Kotlin `Int`.
  - The navigation list builder assigns target ids, selects the default
    target and groups the targets.

`Common` holds the shared entities (`Player`, `LedColor` and the `Option`
type); `ModuleConfig` is declared in `ModuleConfigs`, beside its repository. `Seqs` holds list operations the source calls from the
Kotlin standard library: `removeAt`/`add`, a stable `sortedBy`, `filter`,
`reversed` and `indexOf`, each with the properties the source relies on.

Conventions:
- Every `MutableStateFlow` is a class field, and every `launch` is a
  synchronous step.
- `Clock.System.now()` is a parameter `now`, and a `Duration` is a whole
  number of milliseconds.
- A `Float` percentage is the exact `real` the program rounds.
- `list.random()` is a parameter `pick`.
- An animation is modelled by the value it runs to, with its start and end
  as separate steps where the source changes state around it.
- Where a Kotlin expression would throw, the model either carries the
  condition as a `requires` or returns an error value. Each case is listed
  below.

Two places where the source is inconsistent:
- `ModuleController.kt` calls `getModuleList()`, which `ModuleConfigRepository.kt`
  does not declare. The model reads the repository's reloaded `moduleConfigs`
  list there.
- `ModuleController.kt` takes two fixed modules, but its caller passes a list.
  The model takes a list of registered modules with string ids.

## Model

| member | source | states |
|---|---|---|
| Table.Range | src/main/kotlin/data/BaseConfig.kt:30 | `lo until hi` lists exactly the integers from `lo` up to but excluding `hi`, in increasing order (empty when `lo >= hi`) |
| Table.SideBounds | src/main/kotlin/data/BaseConfig.kt:26-31 | an LED belongs to side `s` exactly when it lies in `[bp[s-1] or 0, bp[s] or ledCount)` |
| Table.EmptySide | src/main/kotlin/data/BaseConfig.kt:30 | a side whose start breakpoint is not below its end breakpoint is empty, not an error |
| Table.SideOutsideRange | src/main/kotlin/data/BaseConfig.kt:27-28 | a side id outside `0 .. breakPoints.size` gets both defaults and so yields the whole strip |
| Table.SidesOrdered | src/main/kotlin/data/BaseConfig.kt:26-31 | with sorted breakpoints, every LED of a lower side lies below every LED of a higher side |
| Table.SidesConcatPrefix | src/main/kotlin/data/BaseConfig.kt:18-31 | with sorted breakpoints, sides `0..k-1` concatenated are the range from 0 to side `k-1`'s end |
| Table.SidesPartitionStrip | src/main/kotlin/data/BaseConfig.kt:18-31 | with non-decreasing breakpoints inside the strip, all sides concatenated in order equal `getLEDs()`: no gap, no overlap |
| Table.RangeAppend | src/main/kotlin/data/BaseConfig.kt:30 | two adjacent half-open ranges join into one |
| Table.CountAtOrBelowSorted | src/main/kotlin/data/BaseConfig.kt:26-31 | over sorted breakpoints, counting those at or below an LED finds the split position |
| Table.SideOfSpec | src/main/kotlin/data/BaseConfig.kt:26-31 | with sorted breakpoints each LED of the strip lies in exactly one side, the one `SideOf` names |
| Table.SideOf | src/main/kotlin/data/BaseConfig.kt:26-31 | the side an LED falls in is a valid side id (its exact meaning is `SideOfSpec`) |
| Table.CountAtOrBelow | src/main/kotlin/data/BaseConfig.kt:26-31 | the number of breakpoints at or below an LED is at most the number of breakpoints |
| Table.GetLEDs | src/main/kotlin/data/BaseConfig.kt:18-20 | the LEDs `0 .. ledCount-1`, in order |
| Table.GetSides | src/main/kotlin/data/BaseConfig.kt:22-24 | the side ids `0 .. breakPoints.size`, one per side, in order |
| Table.GetLEDsForSide | src/main/kotlin/data/BaseConfig.kt:26-31 | every LED of a side lies between its start and end, and inside the strip when the breakpoints are |
| ModuleConfigs.AssociateBy | src/main/kotlin/data/repositories/ModuleConfigRepository.kt:18-20 | `associateBy { it.id }` has exactly the list's ids as keys, each mapped to a list element with that id |
| ModuleConfigs.AssociateByAt | src/main/kotlin/data/repositories/ModuleConfigRepository.kt:18-20 | with unique ids, each element is what its id maps to |
| ModuleConfigs.IdsAppend | src/main/kotlin/data/repositories/ModuleConfigRepository.kt:40-50 | appending a row adds exactly its id to the id set |
| ModuleConfigs.RemoveId | src/main/kotlin/data/repositories/ModuleConfigRepository.kt:40-57 | removing an id keeps exactly the rows with other ids |
| ModuleConfigs.RemoveIdUnique | src/main/kotlin/data/repositories/ModuleConfigRepository.kt:28-38 | removing rows keeps the ids unique |
| ModuleConfigs.MirrorsByEntries | src/main/kotlin/data/repositories/ModuleConfigRepository.kt:18-20 | a list with the table's keys whose every row is the table's entry indexes back to exactly that table |
| ModuleConfigs.MirrorsEntries | src/main/kotlin/data/repositories/ModuleConfigRepository.kt:28-38 | every row of a reloaded list is the table's entry for its id |
| ModuleConfigs.MaxPriorityIs | src/main/kotlin/data/repositories/ModuleConfigRepository.kt:59-69 | the table's maximum priority is one of its priorities and bounds all of them, and is 0 on an empty table |
| ModuleConfigs.MaxExists | src/main/kotlin/data/repositories/ModuleConfigRepository.kt:59-69 | every table, empty or not, has a maximum priority in the sense of `getMaxPriority` |
| ModuleConfigs.MaxPriorityUnique | src/main/kotlin/data/repositories/ModuleConfigRepository.kt:59-69 | there is only one such maximum |
| ModuleConfigs.MaxOfListSpec | src/main/kotlin/data/repositories/ModuleConfigRepository.kt:59-69 | the maximum over a non-empty list is attained by a row and bounds every row |
| ModuleConfigs.MaxOfMirror | src/main/kotlin/data/repositories/ModuleConfigRepository.kt:59-69 | the maximum read from the reloaded list is the table's maximum |
| ModuleConfigs.RemoveIdIds | src/main/kotlin/data/repositories/ModuleConfigRepository.kt:52-57 | dropping one id from the mirrored list leaves exactly the table's other keys |
| ModuleConfigs.AppendUnique | src/main/kotlin/data/repositories/ModuleConfigRepository.kt:40-50 | appending a row with a new id keeps the ids unique |
| ModuleConfigs.ReplaceMirrors | src/main/kotlin/data/repositories/ModuleConfigRepository.kt:40-50 | after an upsert the reloaded list mirrors the table with that id replaced, still one row per id |
| ModuleConfigs.DeleteMirrors | src/main/kotlin/data/repositories/ModuleConfigRepository.kt:52-57 | after a delete the reloaded list mirrors the table without that id |
| ModuleConfigs.ModuleConfigRepository.constructor | src/main/kotlin/data/repositories/ModuleConfigRepository.kt:22-38 | opening over the stored rows loads a list mirroring them |
| ModuleConfigs.ModuleConfigRepository.ModuleConfigMap | src/main/kotlin/data/repositories/ModuleConfigRepository.kt:18-20 | `moduleConfigMap` is the stored table itself |
| ModuleConfigs.ModuleConfigRepository.ReplaceModule | src/main/kotlin/data/repositories/ModuleConfigRepository.kt:40-50 | exactly one row with that id, equal to the argument; every other row unchanged; list still mirrors the table |
| ModuleConfigs.ModuleConfigRepository.DeleteModule | src/main/kotlin/data/repositories/ModuleConfigRepository.kt:52-57 | the row with that id is gone and nothing else changes; an absent id changes nothing |
| ModuleConfigs.ModuleConfigRepository.GetMaxPriority | src/main/kotlin/data/repositories/ModuleConfigRepository.kt:59-69 | returns the greatest stored priority, 0 on an empty store |
| Controller.ModuleConfigListSpec | src/main/kotlin/data/ModuleController.kt:22-26 | `moduleConfigList` holds every stored config once (same multiset) in ascending priority |
| Controller.ModuleListMembers | src/main/kotlin/data/ModuleController.kt:28-38 | `moduleList` keeps exactly the registered modules whose config exists and is enabled; a module without config is dropped |
| Controller.ModuleListSorted | src/main/kotlin/data/ModuleController.kt:35-37 | `moduleList` is ordered by stored priority, so the 999 fallback never applies to a kept module |
| Controller.ModuleListStable | src/main/kotlin/data/ModuleController.kt:35-37 | modules of equal priority keep their registration order |
| Controller.StaleIdsSpec | src/main/kotlin/data/ModuleController.kt:53-57 | the ids deleted at start-up are exactly the stored ids that match no registered module |
| Controller.Created | src/main/kotlin/data/ModuleController.kt:59-69 | the k-th missing module gets an enabled config with priority `max + 1 + k`, in registration order |
| Controller.WithCreated | src/main/kotlin/data/ModuleController.kt:59-69 | writing the created configs adds exactly their ids to the table |
| Controller.CreatedStep | src/main/kotlin/data/ModuleController.kt:59-69 | each loop iteration appends one config for the next missing module, at the next priority |
| Controller.WithCreatedKeeps | src/main/kotlin/data/ModuleController.kt:59-69 | writing created configs leaves every other stored config as it was |
| Controller.WithCreatedNew | src/main/kotlin/data/ModuleController.kt:59-69 | every id new to the table after the inserts holds one of the created configs |
| Controller.CreatedIds | src/main/kotlin/data/ModuleController.kt:59-69 | one config is created per missing module, with its id |
| Controller.ReconcileKeys | src/main/kotlin/data/ModuleController.kt:53-71 | the survivors plus the created ids are exactly the registered ids |
| Controller.ReconcileOutcome | src/main/kotlin/data/ModuleController.kt:53-71 | after start-up the stored ids equal the registered ids, surviving configs are untouched, and new configs are enabled and above every surviving priority |
| Controller.SurvivorsKept | src/main/kotlin/data/ModuleController.kt:53-69 | a config of a registered module survives start-up unchanged |
| Controller.CreatedAbove | src/main/kotlin/data/ModuleController.kt:59-69 | each created config is enabled and strictly above every config kept from before |
| Controller.ReconcileIdempotent | src/main/kotlin/data/ModuleController.kt:53-71 | once the stored ids equal the registered ids, reconciling again deletes nothing and creates nothing |
| Controller.StaleIdsNone | src/main/kotlin/data/ModuleController.kt:53-57 | when every stored id is registered, nothing is deleted |
| Controller.SurvivorsByDelete | src/main/kotlin/data/ModuleController.kt:53-57 | deleting the stale ids one by one leaves exactly the registered modules' configs |
| Controller.RemoveAllSpec | src/main/kotlin/data/ModuleController.kt:53-57 | after the deletes an id remains exactly when it was stored and not deleted, with its old config |
| Controller.MaxAfterWrite | src/main/kotlin/data/ModuleController.kt:65 | writing a config one above the maximum makes its priority the new maximum, so the next read of `getMaxPriority` sees it |
| Controller.WithPriorities | src/main/kotlin/data/ModuleController.kt:81-93 | rewriting priorities keeps the table's keys |
| Controller.PriorityStep | src/main/kotlin/data/ModuleController.kt:83-89 | one loop step rewrites one id's priority if it has a config, and is a no-op for an unknown id |
| Controller.ModuleConfigList | src/main/kotlin/data/ModuleController.kt:22-26 | the sorted view is a permutation of the loaded configs |
| Controller.ModuleList | src/main/kotlin/data/ModuleController.kt:28-38 | never more modules than are registered, and none when no config is stored |
| Controller.StaleIds | src/main/kotlin/data/ModuleController.kt:53-57 | at most one id per stored config, and never the id of a registered module |
| Controller.ModuleController.DeleteIfStale | src/main/kotlin/data/ModuleController.kt:53-57 | one delete step: the deleted ids are the stale ids of the configs visited so far, and the table is the original one without them |
| Controller.ModuleController.CreateOne | src/main/kotlin/data/ModuleController.kt:59-69 | one insert step: the next missing module is created, the table holds it, and the greatest stored priority rises by one |
| Controller.ModuleController.SetOnePriority | src/main/kotlin/data/ModuleController.kt:81-93 | one loop step: the table becomes the original one with the new priorities of the ids handled so far |
| Controller.ModuleController.constructor | src/main/kotlin/data/ModuleController.kt:40-73 | `init`: afterwards the stored ids equal the registered ids, registered configs are kept unchanged, new ones are enabled and above them |
| Controller.ModuleController.Reconcile | src/main/kotlin/data/ModuleController.kt:50-71 | returns the deleted ids and created configs the specification functions name and leaves the table in the reconciled state |
| Controller.ModuleController.DeleteStale | src/main/kotlin/data/ModuleController.kt:53-57 | the delete loop removes exactly the stale ids and leaves the survivors |
| Controller.ModuleController.CreateMissing | src/main/kotlin/data/ModuleController.kt:59-69 | the insert loop creates `Created(missing, max)` and writes each to the table |
| Controller.ModuleController.SetModulePriorityList | src/main/kotlin/data/ModuleController.kt:81-93 | only ids with a config get the new priority; unknown ids are ignored, absent ones unchanged |
| Controller.ModuleController.SetModuleEnabled | src/main/kotlin/data/ModuleController.kt:95-105 | only the enabled flag of an existing config changes; an unknown id changes nothing |
| Settings.IndexOfModule | src/main/kotlin/view_models/SettingsViewModel.kt:43 | `indexOfFirst`: the first index with that id, or -1 exactly when none has it |
| Settings.PriorityMapSpec | src/main/kotlin/view_models/SettingsViewModel.kt:48-52 | with unique ids, the priority map sends each module to its list index; priorities become exactly 0..n-1 |
| Settings.PriorityMapKeys | src/main/kotlin/view_models/SettingsViewModel.kt:48-52 | the priority map has exactly the ids of the new order as keys |
| Settings.PriorityMapPositions | src/main/kotlin/view_models/SettingsViewModel.kt:48-52 | every id is mapped to a position of the order that holds that id |
| Settings.PriorityMapAt | src/main/kotlin/view_models/SettingsViewModel.kt:48-52 | with unique ids, the module at position `i` is mapped to `i` |
| Settings.UniqueIdsKeys | src/main/kotlin/view_models/SettingsViewModel.kt:43-46 | ids are unique exactly when the list has unique keys under `id`, so the list operations' key lemmas apply |
| Settings.MovedOrderSpec | src/main/kotlin/view_models/SettingsViewModel.kt:41-46 | the move fails exactly for an unknown id or an out-of-range index; otherwise it is a permutation with the module at `newIndex` and the rest in their old order |
| Settings.MoveModulePriorities | src/main/kotlin/view_models/SettingsViewModel.kt:43-52 | the moved module gets priority `newIndex`; all other modules keep their relative order |
| Settings.MovePriorities | src/main/kotlin/view_models/SettingsViewModel.kt:44-52 | each module's new priority is the position it moves to |
| Settings.MovedModules | src/main/kotlin/view_models/SettingsViewModel.kt:44-46 | a move keeps the ids unique and the same, and puts the moved module at its new index |
| Settings.ConfigListUnique | src/main/kotlin/data/ModuleController.kt:22-26 | the sorted list the screen reorders shows each stored config once |
| Settings.ButtonMoveSucceeds | src/main/kotlin/view_models/SettingsViewModel.kt:40-53 | a one-step up or down move that the screen's buttons allow succeeds and swaps two neighbours |
| Settings.MoveModuleTable | src/main/kotlin/view_models/SettingsViewModel.kt:40-53 | after a move the table has the same modules, the moved one at priority `newIndex` and each at its new position |
| Settings.PrioritiesWritten | src/main/kotlin/view_models/SettingsViewModel.kt:48-52 | writing the priority map of an order sets each module's priority to its position |
| Settings.MovedOrder | src/main/kotlin/view_models/SettingsViewModel.kt:40-53 | a successful move keeps the list's length, with the moved module at its new index |
| Settings.PriorityMap | src/main/kotlin/view_models/SettingsViewModel.kt:48-52 | every priority written is a position in the list |
| Settings.SettingsViewModel.SetModuleEnabled | src/main/kotlin/view_models/SettingsViewModel.kt:38 | forwards to the controller: the same change as `setModuleEnabled` there |
| Settings.SettingsViewModel.constructor | src/main/kotlin/view_models/SettingsViewModel.kt:38-53 | the screen works over the given controller |
| Settings.SettingsViewModel.MoveModule | src/main/kotlin/view_models/SettingsViewModel.kt:40-53 | succeeds exactly when the move is defined, then writes the new order's priorities; otherwise changes nothing |
| Seqs.RemoveAt | src/main/kotlin/view_models/SettingsViewModel.kt:44 | `removeAt(i)` leaves the elements before `i` and shifts the rest down by one |
| Seqs.InsertAt | src/main/kotlin/view_models/SettingsViewModel.kt:46 | `add(i, x)` puts `x` at `i` and shifts the rest up by one |
| Seqs.InsertThenRemove | src/main/kotlin/view_models/TurnViewModel.kt:39-40 | removing what was just inserted gives the list back |
| Seqs.RemoveAtMultiset | src/main/kotlin/view_models/TurnViewModel.kt:39 | `removeAt` takes out exactly the element at that index |
| Seqs.InsertAtMultiset | src/main/kotlin/view_models/TurnViewModel.kt:40 | `add(i, x)` adds exactly `x` |
| Seqs.MoveSpec | src/main/kotlin/view_models/TurnViewModel.kt:36-43 | a move lands the element at its target, keeps every element and leaves the others in order |
| Seqs.MoveSourceSpec | src/main/kotlin/view_models/TurnViewModel.kt:39-40 | each position of a moved list takes its element from a distinct original position, in order apart from the target |
| Seqs.MoveTargetSpec | src/main/kotlin/view_models/TurnViewModel.kt:39-40 | every original element lands at its computed target, and the unmoved elements keep their order |
| Seqs.Reverse | src/main/kotlin/view_models/TurnViewModel.kt:44 | `reversed()` puts element `k` at `n-1-k` |
| Seqs.MoveTargetAt | src/main/kotlin/view_models/TurnViewModel.kt:39-40 | the element at `i` ends up at `MoveTarget(from, to, i)` |
| Seqs.MoveTargetOrder | src/main/kotlin/view_models/TurnViewModel.kt:39-40 | the target positions of the elements that are not moved are in the same order as the elements |
| Seqs.MoveUniqueKeys | src/main/kotlin/view_models/SettingsViewModel.kt:44-46 | a move keeps keys unique |
| Seqs.MoveDupFree | src/main/kotlin/view_models/TurnViewModel.kt:39-40 | a move keeps a list duplicate-free |
| Seqs.ReverseReverse | src/main/kotlin/view_models/TurnViewModel.kt:44 | reversing twice gives the list back |
| Seqs.ReverseMultiset | src/main/kotlin/view_models/TurnViewModel.kt:44 | reversing keeps every element |
| Seqs.IndexOf | src/main/kotlin/data/modules/TurnModule.kt:38 | `indexOf` is the first index holding the element, or -1 exactly when it is absent |
| Seqs.IndexOfDupFree | src/main/kotlin/data/modules/TurnModule.kt:150 | in a duplicate-free list, the element at `i` is found at `i` |
| Seqs.SortBy | src/main/kotlin/data/modules/TurnModule.kt:37-39 | `sortedBy` keeps the same elements, as a multiset |
| Seqs.InsertSorted | src/main/kotlin/data/modules/TurnModule.kt:37-39 | one insertion step of the stable sort adds exactly `x` to the list |
| Seqs.InsertSortedSorted | src/main/kotlin/data/ModuleController.kt:22-26 | inserting into a sorted list keeps it sorted by key |
| Seqs.InsertSortedUniqueKeys | src/main/kotlin/data/ModuleController.kt:22-26 | inserting an element with a new key keeps keys unique |
| Seqs.InsertSortedWithKey | src/main/kotlin/data/ModuleController.kt:35-37 | among elements of one key, an inserted element goes before the ones already there |
| Seqs.SortBySorted | src/main/kotlin/data/ModuleController.kt:22-26 | `sortedBy`'s result is ordered by key |
| Seqs.SortByStable | src/main/kotlin/data/ModuleController.kt:35-37 | `sortedBy` is stable: elements with equal keys keep their input order |
| Seqs.SortByUniqueKeys | src/main/kotlin/data/ModuleController.kt:22-26 | sorting keeps keys unique |
| Seqs.Filter | src/main/kotlin/data/modules/TurnModule.kt:57-59 | the filter keeps only passing elements of the list |
| Seqs.FilterKeeps | src/main/kotlin/data/modules/TurnModule.kt:57-59 | every passing element is kept |
| Seqs.FilterAppend | src/main/kotlin/data/modules/TurnModule.kt:57-59 | filtering distributes over concatenation |
| Seqs.FilterAll | src/main/kotlin/data/modules/TurnModule.kt:57-59 | if everything passes, the list is unchanged |
| Seqs.FilterNone | src/main/kotlin/data/modules/TurnModule.kt:57-59 | if nothing passes, the result is empty |
| Seqs.FilterDupFree | src/main/kotlin/data/modules/TurnModule.kt:57-59 | filtering keeps a list duplicate-free |
| Seqs.SameMultisetSameSet | src/main/kotlin/data/modules/TurnModule.kt:135 | a permutation passes the two-way `containsAll` check |
| Seqs.SameSetSameLength | src/main/kotlin/data/modules/TurnModule.kt:135 | two duplicate-free lists with the same elements have the same length |
| Seqs.DupFreeCard | src/main/kotlin/data/modules/TurnModule.kt:135 | a duplicate-free list has as many distinct elements as entries |
| Seqs.StrictlyIncreasingIdentity | src/main/kotlin/data/modules/TurnModule.kt:37-39 | a strictly increasing list of `n` indices below `n` is `0..n-1` |
| Seqs.StrictGap | src/main/kotlin/data/modules/TurnModule.kt:37-39 | in a strictly increasing list, entries `j - i` apart differ by at least `j - i` |
| Decimal.NatToString | src/main/kotlin/ui/composables/IntegerInputDialog.kt:27 | `toString()` of a number that is not negative is a digit string with no leading zero, starting with '0' only for 0 |
| Decimal.NatToStringValue | src/main/kotlin/ui/composables/IntegerInputDialog.kt:27 | the digits written read back as the number |
| Decimal.DigitChar | src/main/kotlin/ui/composables/IntegerInputDialog.kt:27 | each digit 0-9 is written as the character of that value |
| Decimal.LeadingDigitPositive | src/main/kotlin/ui/composables/IntegerInputDialog.kt:126 | a canonical string that does not start with '0' is worth at least 1 |
| Decimal.CanonicalRoundTrip | src/main/kotlin/ui/composables/IntegerInputDialog.kt:126 | writing the value of a canonical digit string gives the string back |
| Decimal.IntRoundTrip | src/main/kotlin/ui/composables/IntegerInputDialog.kt:126 | every `Int`, negative ones included, survives `toString()` then `toIntOrNull()` |
| Decimal.CanonicalToInt | src/main/kotlin/ui/composables/IntegerInputDialog.kt:126 | a digit string parses to its value when that fits an `Int`, and to null when it overflows |
| Decimal.PadZeroSpec | src/main/kotlin/ui/screens/TimerScreen.kt:444-445 | `%0Nd` gives digits worth the number, at least `N` long and exactly `N` when the number has at most `N` digits |
| Decimal.Zeros | src/main/kotlin/ui/screens/TimerScreen.kt:444-445 | the zero padding is `k` '0' characters (none when `k` is not positive) |
| Decimal.ZerosValue | src/main/kotlin/ui/screens/TimerScreen.kt:444-445 | zero padding on its own is worth 0 |
| Decimal.ZerosThenDigits | src/main/kotlin/ui/screens/TimerScreen.kt:444-445 | leading zeros do not change a digit string's value |
| Decimal.NatToStringLength | src/main/kotlin/ui/screens/TimerScreen.kt:444-445 | numbers below 10, 100 and 1000 have at most 1, 2 and 3 digits |
| Decimal.IntToString | src/main/kotlin/ui/composables/IntegerInputDialog.kt:27 | `toString()` writes a minus sign exactly for a negative number, followed by canonical digits |
| Decimal.ToIntOrNull | src/main/kotlin/ui/composables/IntegerInputDialog.kt:126 | a parsed value fits an `Int`, a negative value comes only from a leading minus sign, and a text with no digit at all is `null` |
| Decimal.PadZero | src/main/kotlin/ui/screens/TimerScreen.kt:444-445 | the padded text is at least `width` characters long and starts with a minus sign exactly for a negative number |
| Timer.InitialConsistent | src/main/kotlin/data/modules/TimerModule.kt:29-34 | the initial timer (stopped, 60 s, 0 %) is consistent |
| Timer.StartConsistent | src/main/kotlin/data/modules/TimerModule.kt:198-210 | a start with a duration that is not negative gives a consistent running timer |
| Timer.TransitionsConsistent | src/main/kotlin/data/modules/TimerModule.kt:145-260 | pause, resume, stop and tick each keep a timer consistent as the clock moves on |
| Timer.PercentageBounds | src/main/kotlin/data/modules/TimerModule.kt:158 | a consistent timer's percentage is between 0 and 1 |
| Timer.TickFinishes | src/main/kotlin/data/modules/TimerModule.kt:148-190 | a tick finishes exactly when more than the duration has passed; at exactly the duration it stays running at 100 % with no time left; the finishing tick changes only the state |
| Timer.NoTimeLostAcrossPause | src/main/kotlin/data/modules/TimerModule.kt:145-251 | after a pause and a resume at `r`, the first tick counts down from the time left at the pause |
| Timer.PauseResumeRoundTrip | src/main/kotlin/data/modules/TimerModule.kt:212-251 | pausing twice is pausing once, and pausing undoes a resume |
| Timer.TickAllConsistent | src/main/kotlin/data/modules/TimerModule.kt:145-196 | any run of ticks at a clock that never goes back keeps the timer consistent and never changes its duration or configuration |
| Timer.TickAllFinishes | src/main/kotlin/data/modules/TimerModule.kt:160-183 | once a reading lies beyond the end, the run has finished |
| Timer.TickAllStarted | src/main/kotlin/data/modules/TimerModule.kt:148-190 | a run of ticks from a running timer ends running or finished, never paused or stopped; while it runs its start is unchanged; its duration never changes |
| Timer.Start | src/main/kotlin/data/modules/TimerModule.kt:198-210 | starting runs afresh whatever the state: the timer is running with no time elapsed at the start instant, and for a duration that is not negative a tick at that instant leaves it unchanged at 0 % |
| Timer.Pause | src/main/kotlin/data/modules/TimerModule.kt:226-251 | a paused timer is never running, and only a running timer becomes paused; pausing freezes time left, percentage and duration |
| Timer.Resume | src/main/kotlin/data/modules/TimerModule.kt:212-224 | after resuming the timer is not paused; a paused timer runs again with exactly `duration - timeLeft` already elapsed, and time left and percentage are unchanged |
| Timer.Stop | src/main/kotlin/data/modules/TimerModule.kt:253-260 | stopping gives a stopped timer that keeps its duration and time left, and on which pause, resume and tick change nothing |
| Timer.Tick | src/main/kotlin/data/modules/TimerModule.kt:145-196 | a tick keeps duration, configuration and start and changes nothing unless the timer runs; a running timer stays running or finishes, and while running its time left is the duration minus the elapsed time, never negative |
| Timer.TickAll | src/main/kotlin/data/modules/TimerModule.kt:145-196 | a run of ticks keeps duration, configuration and start, and leaves a timer that is not running as it was |
| Timer.FractionMonotone | src/main/kotlin/data/modules/TimerModule.kt:158 | the used share of a duration grows with the time used |
| Timer.TickPercentageMonotone | src/main/kotlin/data/modules/TimerModule.kt:145-196 | while the timer runs, a later tick never shows a lower percentage than an earlier one |
| Timer.TickAllRunningShare | src/main/kotlin/data/modules/TimerModule.kt:145-196 | after the first tick a running timer shows the share of its duration used by the last reading, which is at most the duration |
| Timer.TickAllPercentageMonotone | src/main/kotlin/data/modules/TimerModule.kt:145-196 | over clock readings that never go back, the percentage never decreases from the first tick on, and a finished timer never changes again |
| Timer.TimerModule.constructor | src/main/kotlin/data/modules/TimerModule.kt:29-34 | the timer starts as the initial timer |
| Timer.TimerModule.StartTimer | src/main/kotlin/data/modules/TimerModule.kt:198-210 | from any state: running, with duration and time left set to the argument, 0 %, started now, given configuration |
| Timer.TimerModule.PauseTimer | src/main/kotlin/data/modules/TimerModule.kt:226-251 | running becomes paused and forgets its start; any other state is unchanged |
| Timer.TimerModule.ResumeTimer | src/main/kotlin/data/modules/TimerModule.kt:212-224 | paused becomes running with its start set back by the time already used; any other state is unchanged |
| Timer.TimerModule.StopTimer | src/main/kotlin/data/modules/TimerModule.kt:253-260 | from any state: stopped and the start forgotten; duration, time left and configuration are kept |
| Timer.TimerModule.RunTimerJob | src/main/kotlin/data/modules/TimerModule.kt:145-196 | the loop ticks at successive readings while the timer runs; the result is the ticks applied in order, and it stops early only when the timer no longer runs |
| TimerControl.ClampDuration | src/main/kotlin/view_models/TimerViewModel.kt:37-41 | a negative input duration is stored as 0 and any other is kept |
| TimerControl.StartPauseSpec | src/main/kotlin/view_models/TimerViewModel.kt:67-78 | running goes to paused, paused to running with its time left, stopped or finished to running from the input duration and configuration |
| TimerControl.StartPauseConsistent | src/main/kotlin/view_models/TimerViewModel.kt:67-78 | the start/pause button keeps the timer consistent |
| TimerControl.ResetConsistent | src/main/kotlin/view_models/TimerViewModel.kt:80-87 | a reset restarts with the timer's own duration and configuration, consistently |
| TimerControl.TimerViewModel.constructor | src/main/kotlin/view_models/TimerViewModel.kt:13-14 | input starts at 0 s with the default configuration |
| TimerControl.TimerViewModel.SetTimerDuration | src/main/kotlin/view_models/TimerViewModel.kt:37-41 | stores the clamped duration and leaves the configuration |
| TimerControl.TimerViewModel.SetTimerColor | src/main/kotlin/view_models/TimerViewModel.kt:43-49 | changes only the fill colour |
| TimerControl.TimerViewModel.SetTimerFillType | src/main/kotlin/view_models/TimerViewModel.kt:51-57 | changes only the fill type |
| TimerControl.TimerViewModel.SetTimerTail | src/main/kotlin/view_models/TimerViewModel.kt:59-65 | changes only the tail type |
| TimerControl.TimerViewModel.StartPauseTimer | src/main/kotlin/view_models/TimerViewModel.kt:67-78 | dispatches on the module's state as `StartPause` describes |
| TimerControl.TimerViewModel.ResetTimer | src/main/kotlin/view_models/TimerViewModel.kt:80-87 | restarts the module's timer with its own duration and configuration |
| TimerControl.TimerViewModel.StopTimer | src/main/kotlin/view_models/TimerViewModel.kt:89 | forwards to the module's stop |
| TimerScreen.DivParts | src/main/kotlin/ui/screens/TimerScreen.kt:439-442 | the whole hours, minutes, seconds and milliseconds of a duration built from in-range parts are those parts |
| TimerScreen.ComponentsOf | src/main/kotlin/ui/screens/TimerScreen.kt:125-127 | splitting a duration built from in-range components gives those components |
| TimerScreen.Decompose | src/main/kotlin/ui/screens/TimerScreen.kt:439-442 | a duration that is not negative is its whole hours plus minutes below 60, seconds below 60 and milliseconds below 1000 |
| TimerScreen.SplitSpec | src/main/kotlin/ui/screens/TimerScreen.kt:125-127 | the split gives whole hours, minutes below 60 and seconds below 60 with `3600h + 60m + s` equal to the whole seconds |
| TimerScreen.DurationTextRoundTrip | src/main/kotlin/ui/screens/TimerScreen.kt:439-450 | `durationText` reads back as the duration to the precision shown: whole seconds, or milliseconds with `.mmm` |
| TimerScreen.FieldsRoundTrip | src/main/kotlin/ui/screens/TimerScreen.kt:444-450 | the printed fields of in-range components read back as those components |
| TimerScreen.LayoutRoundTrip | src/main/kotlin/ui/screens/TimerScreen.kt:448-450 | digit fields of the printed widths laid out with ':' and '.' read back as their values |
| TimerScreen.TextParts | src/main/kotlin/ui/screens/TimerScreen.kt:439-450 | `durationText` prints the hours unwrapped, minutes mod 60, seconds mod 60 and milliseconds mod 1000 |
| TimerScreen.PadField | src/main/kotlin/ui/screens/TimerScreen.kt:444-445 | `%02d` and `%03d` fields are digits worth their number, exactly 2 or 3 wide when it fits (hours of 100 or more print wider) |
| TimerScreen.ClockParts | src/main/kotlin/ui/screens/TimerScreen.kt:450 | `HH:MM:SS` reads back as its three fields |
| TimerScreen.MillisPart | src/main/kotlin/ui/screens/TimerScreen.kt:448 | the `.mmm` suffix adds its milliseconds to the clock |
| TimerScreen.TwoDigits | src/main/kotlin/ui/screens/TimerScreen.kt:444 | a two-digit field is worth ten times its first digit plus its second |
| TimerScreen.SubmitReplacesComponent | src/main/kotlin/ui/screens/TimerScreen.kt:137-139 | submitting an in-range value replaces exactly the edited component (corrected for seconds) |
| TimerScreen.SubmitInitialValue | src/main/kotlin/ui/screens/TimerScreen.kt:137-150 | (corrected for seconds) submitting the value the dialog opened on keeps the duration, up to its milliseconds; as written this fails for the seconds dialog, see `TimerScreen.SecondsInitialValueAsWritten` |
| TimerScreen.SecondsEditLosesHours | src/main/kotlin/ui/screens/TimerScreen.kt:139 | as written, editing the seconds of one hour to 5 gives 5 seconds, where replacing the component gives 1 h 5 s |
| TimerScreen.SecondsEditAsWritten | src/main/kotlin/ui/screens/TimerScreen.kt:139 | as written, a seconds edit always rebuilds the hours from the minutes |
| TimerScreen.Split | src/main/kotlin/ui/screens/TimerScreen.kt:125-127 | the hours fit an `Int` (`toInt()` wraps); for a duration that is not negative the minutes and the seconds are below 60 |
| TimerScreen.DurationText | src/main/kotlin/ui/screens/TimerScreen.kt:439-452 | the text is at least as long as `HH:MM:SS`, or `HH:MM:SS.mmm` with milliseconds; `TimerScreen.DurationTextRoundTrip` gives its content |
| TimerScreen.Submit | src/main/kotlin/ui/screens/TimerScreen.kt:135-140 | (corrected for seconds) the hidden dialog submits 0, and an edit of a duration that is not negative with a value that is not negative submits a duration that is not negative |
| TimerScreen.SubmitAsWritten | src/main/kotlin/ui/screens/TimerScreen.kt:135-140 | as written, the hours and minutes dialogs submit exactly what `TimerScreen.Submit` does; only the seconds branch differs |
| TimerScreen.SubmitInitialValueAsWritten | src/main/kotlin/ui/screens/TimerScreen.kt:137-150 | as written, the hours and minutes dialogs keep the duration, up to its milliseconds, when the value they opened on is submitted |
| TimerScreen.SecondsInitialValueAsWritten | src/main/kotlin/ui/screens/TimerScreen.kt:139-150 | as written, opening the seconds dialog on one hour exactly and submitting it unchanged turns the duration into 0 |
| Keypad.PressCanonical | src/main/kotlin/ui/composables/IntegerInputDialog.kt:29-100 | each keypad button keeps the input a non-empty digit string with no leading zero |
| Keypad.KeypadOnlyCanonical | src/main/kotlin/ui/composables/IntegerInputDialog.kt:27-100 | from a non-negative initial value, any run of keypad buttons leaves a canonical input |
| Keypad.KeypadValue | src/main/kotlin/ui/composables/IntegerInputDialog.kt:29-100 | a digit multiplies the value by ten and adds the digit; backspace divides it by ten |
| Keypad.BackspaceUndoesDigit | src/main/kotlin/ui/composables/IntegerInputDialog.kt:29-100 | backspace undoes a digit on a canonical input |
| Keypad.SubmitSpec | src/main/kotlin/ui/composables/IntegerInputDialog.kt:126 | OK submits the input's value, or 0 when it overflows an `Int`; on the opening text it submits the initial value |
| Keypad.SubmitNonNumber | src/main/kotlin/ui/composables/IntegerInputDialog.kt:126 | free text with no digits submits 0 |
| Keypad.AddNumber | src/main/kotlin/ui/composables/IntegerInputDialog.kt:29-32 | the digit becomes the last character, and any input other than "0" is kept in front of it |
| Keypad.Backspace | src/main/kotlin/ui/composables/IntegerInputDialog.kt:97-99 | an input of two or more characters loses exactly its last one, and a non-empty input never becomes empty |
| Keypad.Clear | src/main/kotlin/ui/composables/IntegerInputDialog.kt:57-59 | the cleared input is canonical and worth 0 |
| Keypad.Reset | src/main/kotlin/ui/composables/IntegerInputDialog.kt:88 | the reset text starts with a minus sign exactly for a negative initial value, and is canonical for one that is not negative |
| Keypad.SubmitValue | src/main/kotlin/ui/composables/IntegerInputDialog.kt:126 | the submitted value is an `Int`, and a value other than 0 is the one `toIntOrNull()` read |
| Keypad.Press | src/main/kotlin/ui/composables/IntegerInputDialog.kt:29-100 | no button empties a non-empty input |
| Keypad.InputDialog.constructor | src/main/kotlin/ui/composables/IntegerInputDialog.kt:27 | the input starts as the initial value's text |
| Keypad.InputDialog.PressDigit | src/main/kotlin/ui/composables/IntegerInputDialog.kt:29-32 | a digit replaces "0" and is appended otherwise |
| Keypad.InputDialog.PressBackspace | src/main/kotlin/ui/composables/IntegerInputDialog.kt:97-100 | backspace on one character gives "0", otherwise drops the last character |
| Keypad.InputDialog.PressClear | src/main/kotlin/ui/composables/IntegerInputDialog.kt:57-59 | clear sets "0" |
| Keypad.InputDialog.PressReset | src/main/kotlin/ui/composables/IntegerInputDialog.kt:88 | reset restores the initial value's text |
| Keypad.InputDialog.SetInput | src/main/kotlin/ui/composables/IntegerInputDialog.kt:53 | typing replaces the text |
| Keypad.InputDialog.Submit | src/main/kotlin/ui/composables/IntegerInputDialog.kt:126 | OK yields `toIntOrNull() ?: 0` of the input |
| Common.ToColor | src/main/kotlin/ui/Extensions.kt:13 | an LED colour shows as the interface colour built from it |
| Common.PlayerIds | src/main/kotlin/view_models/TurnViewModel.kt:42 | `map { it.id }` lists each player's id at its position |
| Common.FindPlayer | src/main/kotlin/data/modules/TurnModule.kt:30 | `find { it.id == id }` yields a listed player with that id, or null exactly when none has it |
| Common.FindPlayerAt | src/main/kotlin/data/modules/TurnModule.kt:30 | with unique ids, finding by id finds exactly the player at that index |
| Turns.AppendMissingSpec | src/main/kotlin/data/modules/TurnModule.kt:53-55 | the first pass keeps the order as a prefix and appends only active ids, so afterwards every active id is present and no duplicate is added |
| Turns.AppendNothing | src/main/kotlin/data/modules/TurnModule.kt:53-55 | when every active id is already present, the first pass changes nothing |
| Turns.ReconcileSpec | src/main/kotlin/data/modules/TurnModule.kt:49-62 | the reconciled order holds exactly the active ids, surviving ids keep their relative order, and a duplicate-free order stays duplicate-free |
| Turns.ReconcileFixedPoint | src/main/kotlin/data/modules/TurnModule.kt:49-62 | an order that already holds exactly the active ids is unchanged |
| Turns.ReconcileIdempotent | src/main/kotlin/data/modules/TurnModule.kt:49-62 | reconciling twice is reconciling once |
| Turns.PlayerListSpec | src/main/kotlin/data/modules/TurnModule.kt:33-40 | `playerList` holds exactly the active players (same multiset), sorted by their index in the order, with players missing from the order (index -1) first and in their own order |
| Turns.PlayerListFollowsOrder | src/main/kotlin/data/modules/TurnModule.kt:33-40 | on a reconciled order, `playerList` lists the players exactly in order |
| Turns.OrderHoldsEachPlayer | src/main/kotlin/data/modules/TurnModule.kt:49-62 | a reconciled duplicate-free order has one entry per active player |
| Turns.ListedInOrder | src/main/kotlin/data/modules/TurnModule.kt:37-39 | once every active id is in the order, each listed player sits at its id's index |
| Turns.SetOrder | src/main/kotlin/data/modules/TurnModule.kt:134-138 | a new order is taken exactly when both lists contain all of each other; otherwise the order is kept |
| Turns.AcceptsDuplicates | src/main/kotlin/data/modules/TurnModule.kt:135 | the guard is set equality, so an order with a duplicate is accepted |
| Turns.SeatedIds | src/main/kotlin/data/modules/TurnModule.kt:140-143 | the ids taken from the table are exactly the seated players' ids |
| Turns.UniqueIdsDupFree | src/main/kotlin/data/modules/TurnModule.kt:150 | players with unique ids form a duplicate-free list, so `indexOf(activePlayer)` finds its index |
| Turns.NextPlayerSpec | src/main/kotlin/data/modules/TurnModule.kt:145-158 | forward from player `i` is `i+1` wrapping to the first; backward is `i-1` wrapping to the last |
| Turns.NextPlayerFromNone | src/main/kotlin/data/modules/TurnModule.kt:145-158 | with no active player forward picks the first and backward the last; an empty list picks nobody |
| Turns.ForwardThenBack | src/main/kotlin/data/modules/TurnModule.kt:145-158 | stepping forward then backward returns to the same player |
| Turns.MultipleMod | src/main/kotlin/data/modules/TurnModule.kt:186-204 | a target of `10·n + r` lands back on `r` modulo `n` |
| Turns.FlashSettlesOnPlayer | src/main/kotlin/data/modules/TurnModule.kt:181-237 | FLASH_SIDES runs exactly when the player is listed, settles on that player, and its target modulo the list size is that player's index |
| Turns.DoubleSettlesOnChunk | src/main/kotlin/data/modules/TurnModule.kt:201-237 | for a listed player whose first chunk is non-empty, DOUBLE_INDICATOR settles on that player and its target modulo `ledCount` is the middle LED of that chunk |
| Turns.MarkedInStep | src/main/kotlin/data/modules/TurnModule.kt:72-76 | the filter marks each even position of a chunk |
| Turns.ShadedByStep | src/main/kotlin/data/modules/TurnModule.kt:71-77 | the shaded LEDs are the union over the player's chunks |
| Turns.NoChunksTransparent | src/main/kotlin/data/modules/TurnModule.kt:68-71 | with no chunks to shade (no active player, or none recorded) every LED of the filter is transparent |
| Turns.ConsecutiveChunk | src/main/kotlin/data/modules/TurnModule.kt:71-77 | a consecutive chunk shades every second LED starting at its first |
| Turns.AppendMissing | src/main/kotlin/data/modules/TurnModule.kt:53-55 | the old order is kept as a prefix, and at most one id per active player is appended |
| Turns.ReconciledOrder | src/main/kotlin/data/modules/TurnModule.kt:49-62 | every id of the reconciled order belongs to an active player, and it is at most as long as the old order and the players together |
| Turns.PlayerList | src/main/kotlin/data/modules/TurnModule.kt:33-40 | the list is a permutation of the active players |
| Turns.NextPlayer | src/main/kotlin/data/modules/TurnModule.kt:145-158 | there is no step on an empty list; otherwise the step lands on the id of a listed player |
| Turns.PseudoRandomRun | src/main/kotlin/data/modules/TurnModule.kt:176-237 | a run ends on the chosen id, which is a listed player; a flashing run settles after ten full laps of the list |
| Turns.FilterFrame | src/main/kotlin/data/modules/TurnModule.kt:66-80 | one entry per LED, each shaded or transparent, and all transparent when there are no chunks |
| Turns.TurnModule.constructor | src/main/kotlin/data/modules/TurnModule.kt:23-42 | the active id is 0, the order is empty, nothing runs, and the filter is transparent |
| Turns.TurnModule.ReconcileOrder | src/main/kotlin/data/modules/TurnModule.kt:49-62 | the two passes leave the reconciled order and change nothing else |
| Turns.TurnModule.RefreshLedFilter | src/main/kotlin/data/modules/TurnModule.kt:66-80 | the filter is reset and then shaded for the active player's chunks |
| Turns.TurnModule.SetPlayerOrder | src/main/kotlin/data/modules/TurnModule.kt:134-138 | the order takes the guarded new order and nothing else changes |
| Turns.TurnModule.SetPlayerOrderFromTable | src/main/kotlin/data/modules/TurnModule.kt:140-143 | the seated ids go through the same guard |
| Turns.TurnModule.SetActivePlayer | src/main/kotlin/data/modules/TurnModule.kt:164-166 | any id is stored unchecked |
| Turns.TurnModule.ResetActivePlayer | src/main/kotlin/data/modules/TurnModule.kt:160-162 | the active id becomes 0 |
| Turns.TurnModule.SetNextPlayerActive | src/main/kotlin/data/modules/TurnModule.kt:145-158 | the active id steps to the next player of the list, and is kept on an empty list |
| Turns.TurnModule.StartPseudoRandomAnimation | src/main/kotlin/data/modules/TurnModule.kt:176-182 | any previous run is replaced, the active id becomes 0 at once, and the pending run is the one `PseudoRandomRun` names |
| Turns.TurnModule.SetRandomPlayerActive | src/main/kotlin/data/modules/TurnModule.kt:168-174 | nothing happens on an empty list; otherwise a run starts for the picked player |
| Turns.TurnModule.FinishPseudoRandomAnimation | src/main/kotlin/data/modules/TurnModule.kt:237 | when the run settles, the active id becomes its player, exactly once; with no run pending nothing changes |
| TurnControl.ToggleSpec | src/main/kotlin/view_models/TurnViewModel.kt:29-35 | setting the current active player resets to 0, any other id is set; toggling twice from a set player clears it |
| TurnControl.ShownActiveIdSpec | src/main/kotlin/view_models/TurnViewModel.kt:19-27 | the shown active id is the active player's id, or 0 when there is none |
| TurnControl.SameIdSamePlayer | src/main/kotlin/view_models/TurnViewModel.kt:30 | with unique ids, equal ids mean the same player |
| TurnControl.RearrangementShown | src/main/kotlin/view_models/TurnViewModel.kt:42 | any rearrangement of the listed players is accepted as an order and then listed exactly as submitted |
| TurnControl.ListedPlayers | src/main/kotlin/data/modules/TurnModule.kt:33-40 | the list shows each active player once |
| TurnControl.MoveAccepted | src/main/kotlin/view_models/TurnViewModel.kt:36-43 | a move submits a list with the same ids, so it is accepted, and the list becomes the moved list |
| TurnControl.ListIdsAreOrder | src/main/kotlin/data/modules/TurnModule.kt:33-40 | on a reconciled order, the listed ids are the order itself |
| TurnControl.ReverseUniqueIds | src/main/kotlin/view_models/TurnViewModel.kt:44 | reversing keeps ids unique |
| TurnControl.ReverseAccepted | src/main/kotlin/view_models/TurnViewModel.kt:44 | the reversed id list is always accepted, shows the reversed list, and reversing twice restores the order |
| TurnControl.Toggle | src/main/kotlin/view_models/TurnViewModel.kt:29-35 | the stored id is 0 or the chosen one, and choosing the active player clears it |
| TurnControl.ShownActiveId | src/main/kotlin/view_models/TurnViewModel.kt:19-27 | a shown id other than 0 is the active player's, and toggling the shown id clears it |
| TurnControl.TurnViewModel.constructor | src/main/kotlin/view_models/TurnViewModel.kt:11 | the animation type starts as DOUBLE_INDICATOR |
| TurnControl.TurnViewModel.SetPlayerActive | src/main/kotlin/view_models/TurnViewModel.kt:29-35 | toggles the module's active id |
| TurnControl.TurnViewModel.MovePlayerPosition | src/main/kotlin/view_models/TurnViewModel.kt:36-43 | submits the moved id list through the module's guard; exactly when `removeAt(from)` or `add(to, item)` would fail with an index error (a stale selection after the list shrank, say), `ok` is false and nothing changes |
| TurnControl.TurnViewModel.ReversePlayerOrder | src/main/kotlin/view_models/TurnViewModel.kt:44 | submits the reversed id list through the guard |
| TurnControl.TurnViewModel.SetRandomPlayerActive | src/main/kotlin/view_models/TurnViewModel.kt:45 | starts a random pick with the current animation type |
| TurnControl.TurnViewModel.SetPseudoRandomActive | src/main/kotlin/view_models/TurnViewModel.kt:46 | starts a run for that player with the current animation type |
| TurnControl.TurnViewModel.SetNextPlayerActive | src/main/kotlin/view_models/TurnViewModel.kt:47 | forwards to the module's next/previous step |
| TurnControl.TurnViewModel.SetOrderFromTable | src/main/kotlin/view_models/TurnViewModel.kt:48 | forwards the seated ids to the module's guard |
| TurnControl.TurnViewModel.SetRandomAnimType | src/main/kotlin/view_models/TurnViewModel.kt:50 | the most recently set type is used by later requests |
| TurnScreen.RowStateSpec | src/main/kotlin/ui/screens/TurnScreen.kt:176-181 | no target: every row is DEFAULT; target `t`: row `t` is REORDER_ACTIVE, rows above it ABOVE_TARGET, rows below it BELOW_TARGET |
| TurnScreen.ReorderClickSpec | src/main/kotlin/ui/screens/TurnScreen.kt:189-198 | with nothing selected a click selects the row; a click on the selected row clears it; a click on another row requests one move from the selected row to it and clears the selection |
| TurnScreen.TwoClicks | src/main/kotlin/ui/screens/TurnScreen.kt:189-198 | two clicks from nothing selected request exactly one move, unless both hit the same row, and leave nothing selected |
| TurnScreen.RowState | src/main/kotlin/ui/screens/TurnScreen.kt:176-181 | only the target row is the one being moved; any other row is above the target exactly when it comes before it |
| TurnScreen.ReorderClick | src/main/kotlin/ui/screens/TurnScreen.kt:189-198 | a click selects only when nothing is selected, and then selects the clicked row; a move leaves nothing selected and goes from the selected row to a different, clicked row |
| TurnScreen.TurnList.constructor | src/main/kotlin/ui/screens/TurnScreen.kt:163 | no row is selected at first |
| TurnScreen.TurnList.OnReorderClicked | src/main/kotlin/ui/screens/TurnScreen.kt:189-198 | the selection and move request follow `ReorderClick` |
| TurnScreen.TurnList.OnRowClicked | src/main/kotlin/ui/screens/TurnScreen.kt:186 | a row click toggles that row's player as active |
| TurnScreen.TurnList.OnShuffleClicked | src/main/kotlin/ui/screens/TurnScreen.kt:187 | the row's shuffle button starts a pseudo-random run for that player |
| Initiative.FindTeam | src/main/kotlin/data/repositories/TurnRepository.kt:111 | the team with the slot's team id, or null when the slot has no team or none matches |
| Initiative.IndexOfLast | src/main/kotlin/data/repositories/TurnRepository.kt:106 | `indexOfLast`: the last slot with that slot id, or -1 when none has it |
| Initiative.FirstOnDeck | src/main/kotlin/data/repositories/TurnRepository.kt:110-114 | the first slot of the rotation that can be on deck, or -1 exactly when none can |
| Initiative.RotationIndex | src/main/kotlin/data/repositories/TurnRepository.kt:106-110 | the rotation starts at the last slot with the active id, or at index 0 if none has it, and wraps to the front |
| Initiative.OnDeckSpec | src/main/kotlin/data/repositories/TurnRepository.kt:106-114 | nothing is on deck exactly when no slot has an on-deck team and another slot id; otherwise it is the first such slot of the rotation |
| Initiative.TurnListSpec | src/main/kotlin/data/repositories/TurnRepository.kt:116-130 | one entry per slot in order; active exactly on the active slot id; on deck exactly on the on-deck slot id, never both; colour from the linked player, else the slot's own |
| Initiative.DefaultOnDeckFirst | src/main/kotlin/data/repositories/TurnRepository.kt:17-114 | with the stored slots and teams, slot 0 active puts slot 2 on deck |
| Initiative.FirstOnDeckAt | src/main/kotlin/data/repositories/TurnRepository.kt:110-114 | the first slot of the rotation that can be on deck is the one the search returns |
| Initiative.DefaultSlotIds | src/main/kotlin/data/repositories/TurnRepository.kt:41-98 | the stored slots are seven, with slot ids 0,0,1,2,2,3,4 and team ids 0,0,1,0,0,1,2 |
| Initiative.DefaultTeamsOnDeck | src/main/kotlin/data/repositories/TurnRepository.kt:17-37 | among the stored teams only team 0 can be on deck |
| Initiative.DefaultOnDeckWraps | src/main/kotlin/data/repositories/TurnRepository.kt:17-114 | with slot 2 active, the search wraps around and puts slot 0 on deck |
| Initiative.Rotation | src/main/kotlin/data/repositories/TurnRepository.kt:106-110 | the rotation has one place per slot, and starts at the last slot of the active slot id when there is one |
| Initiative.OnDeckSlot | src/main/kotlin/data/repositories/TurnRepository.kt:106-114 | the on-deck slot id is never the active one |
| Initiative.TurnList | src/main/kotlin/data/repositories/TurnRepository.kt:116-130 | one row per slot, in slot order, with the slot's id and initiative value |
| Initiative.TurnRepository.constructor | src/main/kotlin/data/repositories/TurnRepository.kt:15-98 | the active slot is 0 over the stored slots and teams |
| Initiative.TurnRepository.ResetActive | src/main/kotlin/data/repositories/TurnRepository.kt:133 | the active slot becomes 0 |
| Initiative.TurnRepository.SetNextActive | src/main/kotlin/data/repositories/TurnRepository.kt:135 | the active slot goes up by one, with no wrap and no bound |
| Health.NewPairSpec | src/main/kotlin/data/modules/HealthModule.kt:96-101 | max health is the given or old value, at least 0; health is the given or old value clamped to `[0, max]`; omitted arguments keep their old values |
| Health.NewPairIdempotent | src/main/kotlin/data/modules/HealthModule.kt:96-101 | setting the same values twice is setting them once |
| Health.QuotientBound | src/main/kotlin/data/modules/HealthModule.kt:103-115 | comparing `health/max` with a bound is comparing `health` with the bound times `max` |
| Health.PercentageSpec | src/main/kotlin/data/modules/HealthModule.kt:98-115 | the percentage lies in `[0, 1]`, and the low-health test `percentage < 0.1` holds exactly when `10·health < max` |
| Health.HealthStates | src/main/kotlin/data/modules/HealthModule.kt:43-61 | one health state per active player |
| Health.HealthStatesSpec | src/main/kotlin/data/modules/HealthModule.kt:43-61 | entry `i` describes player `i`: its id, name and interface colour, its stored health and maximum, and the percentage of that pair (1 at a zero maximum, else health/max); a player with no entry reads as 0/0 at 100 %; pairs within bounds give percentages in `[0, 1]` |
| Health.NewPair | src/main/kotlin/data/modules/HealthModule.kt:96-101 | the stored pair is within bounds, and a call that gives neither value leaves a pair within bounds as it was |
| Health.Percentage | src/main/kotlin/data/modules/HealthModule.kt:103 | a maximum of 0 or full health is 100 %, and health that is not negative over a positive maximum gives a share that is not negative |
| Health.IsLow | src/main/kotlin/data/modules/HealthModule.kt:115 | a maximum of 0 or full health never pulses |
| Health.HealthModule.constructor | src/main/kotlin/data/modules/HealthModule.kt:41-64 | nothing is stored, animated or pulsing at first |
| Health.HealthModule.SetHealth | src/main/kotlin/data/modules/HealthModule.kt:94-131 | only this player's entry changes, to the clamped pair; its bar runs to the new percentage; it pulses exactly when low |
| Players.PlayerMapSpec | src/main/kotlin/data/repositories/PlayerRepository.kt:31-38 | one entry per seat: the player with the stored id, or null when no such player exists |
| Players.PlayerMap | src/main/kotlin/data/repositories/PlayerRepository.kt:31-38 | one entry per seat (resolved as `PlayerMapSpec` states) |
| Players.RemovedPlayerUnseated | src/main/kotlin/data/repositories/PlayerRepository.kt:31-38 | the seat of a removed player resolves to null |
| Players.SeatsAfterSpec | src/main/kotlin/data/repositories/PlayerRepository.kt:122-131 | an unknown side or one beyond the array changes nothing; otherwise only that seat changes, to the given id or null |
| Players.SeatThenMap | src/main/kotlin/data/repositories/PlayerRepository.kt:122-131 | seating a player makes that side resolve to the player and leaves the other sides' resolution unchanged |
| Players.BlankNames | src/main/kotlin/data/repositories/PlayerRepository.kt:107 | empty and whitespace-only names are blank; a name with letters is not |
| Players.SeatsAfter | src/main/kotlin/data/repositories/PlayerRepository.kt:122-131 | the seat array keeps its size and every seat other than the one set |
| Players.IsBlank | src/main/kotlin/data/repositories/PlayerRepository.kt:107 | the empty name is blank, and a blank name holds no ASCII letter or digit |
| Players.PlayerRepository.constructor | src/main/kotlin/data/repositories/PlayerRepository.kt:23-29 | no players and one empty seat per side |
| Players.PlayerRepository.Map | src/main/kotlin/data/repositories/PlayerRepository.kt:31-38 | the current seat map, one entry per seat, resolved as `PlayerMapSpec` states |
| Players.PlayerRepository.SetPlayerSide | src/main/kotlin/data/repositories/PlayerRepository.kt:122-131 | the seats become `SeatsAfter` of the old seats; players unchanged |
| Players.PlayerRepository.SetPlayerName | src/main/kotlin/data/repositories/PlayerRepository.kt:106-120 | accepted exactly when the name is not blank |
| PlayerSides.LastSideAt | src/main/kotlin/data/modules/PlayerSidesModule.kt:53-57 | the highest side covering an LED, or -1 when none does |
| PlayerSides.Paint | src/main/kotlin/data/modules/PlayerSidesModule.kt:54-56 | painting one side keeps the frame's length |
| PlayerSides.PaintSides | src/main/kotlin/data/modules/PlayerSidesModule.kt:51-57 | painting the first `k` sides gives one colour per LED of the strip |
| PlayerSides.ShownColors | src/main/kotlin/data/modules/PlayerSidesModule.kt:53 | one shown colour per side slot |
| PlayerSides.PaintSidesAt | src/main/kotlin/data/modules/PlayerSidesModule.kt:51-57 | each LED shows the colour of the last side painted over it, transparent when none covers it: overlaps go to the higher side |
| PlayerSides.FrameSorted | src/main/kotlin/data/modules/PlayerSidesModule.kt:51-57 | with sorted breakpoints every LED shows its own side's current colour |
| PlayerSides.RetargetSpec | src/main/kotlin/data/modules/PlayerSidesModule.kt:35-45 | a seat-map change keeps what each side shows and sends each initialised side towards its player's colour, or transparent for an empty seat |
| PlayerSides.Retarget | src/main/kotlin/data/modules/PlayerSidesModule.kt:35-45 | a seat-map change keeps one slot per side (its meaning is `RetargetSpec`) |
| PlayerSides.Settled | src/main/kotlin/data/modules/PlayerSidesModule.kt:35-45 | finishing every animation keeps one slot per side |
| PlayerSides.SeatedColorShown | src/main/kotlin/data/modules/PlayerSidesModule.kt:35-57 | once the animations finish, every LED shows its seated player's colour, or transparent for an empty seat |
| PlayerSides.Frame | src/main/kotlin/data/modules/PlayerSidesModule.kt:50-60 | the frame has one colour per LED; `PlayerSides.PaintSidesAt` gives each one |
| PlayerSides.PlayerSidesModule.constructor | src/main/kotlin/data/modules/PlayerSidesModule.kt:24 | one empty slot per side |
| PlayerSides.PlayerSidesModule.InitSideColors | src/main/kotlin/data/modules/PlayerSidesModule.kt:28-33 | when the first slot is empty, every slot becomes a transparent animation; otherwise nothing changes |
| PlayerSides.PlayerSidesModule.OnPlayerMap | src/main/kotlin/data/modules/PlayerSidesModule.kt:35-45 | the slots become `Retarget` of the old slots |
| PlayerSides.PlayerSidesModule.OnUpdate | src/main/kotlin/data/modules/PlayerSidesModule.kt:50-60 | a fresh frame of `ledCount` colours equal to the painted frame |
| Status.ColorsAt | src/main/kotlin/view_models/StatusViewModel.kt:30-32 | one interface colour per listed LED |
| Status.ColorsAtAppend | src/main/kotlin/view_models/StatusViewModel.kt:30-32 | mapping colours distributes over concatenation |
| Status.SplitMapSpec | src/main/kotlin/view_models/StatusViewModel.kt:29-32 | one key per side of `getSides()`; side `s` lists its LEDs' colours in LED order, one per LED |
| Status.ListsConcatLeds | src/main/kotlin/view_models/StatusViewModel.kt:29-32 | the first `k` side lists concatenated are the colours of the first `k` sides' LEDs |
| Status.SideLedsWithin | src/main/kotlin/view_models/StatusViewModel.kt:30-32 | every LED of a side indexes the frame whenever the sides lie within it |
| Status.SidesConcatWithin | src/main/kotlin/view_models/StatusViewModel.kt:29-32 | the LEDs of the first `k` sides all index the frame |
| Status.SplitCoversStrip | src/main/kotlin/view_models/StatusViewModel.kt:29-32 | with sorted breakpoints and a long enough frame, the side lists in side order are the whole frame |
| Status.SplitMap | src/main/kotlin/view_models/StatusViewModel.kt:26-36 | one entry per side id, each with one colour per LED of that side |
| Status.StatusViewModel.constructor | src/main/kotlin/view_models/StatusViewModel.kt:22-24 | the screen starts with no lists |
| Status.StatusViewModel.SplitSides | src/main/kotlin/view_models/StatusViewModel.kt:26-36 | the loop builds exactly `SplitMap` |
| Status.StatusViewModel.OnLedState | src/main/kotlin/view_models/StatusViewModel.kt:18-21 | each frame replaces the lists with its split |
| Navigation.Targets | src/main/kotlin/ui/navigation/builder/NavListBuilder.kt:17-26 | one target per definition |
| Navigation.TargetsPrefix | src/main/kotlin/ui/navigation/builder/NavListBuilder.kt:17-26 | adding targets never changes those already built |
| Navigation.TargetsDupFree | src/main/kotlin/ui/navigation/builder/NavListBuilder.kt:19 | each target's id is the number built before it, so ids are `0..n-1` and no target is repeated |
| Navigation.LastFlaggedSpec | src/main/kotlin/ui/navigation/builder/NavListBuilder.kt:10-28 | the flagged default is the last target added with the flag, or null when none is flagged |
| Navigation.LastFlaggedNone | src/main/kotlin/ui/navigation/builder/NavListBuilder.kt:10-28 | no flagged default exactly when no definition carries the flag |
| Navigation.LastFlaggedMember | src/main/kotlin/ui/navigation/builder/NavListBuilder.kt:10-28 | a flagged default is one of the built targets |
| Navigation.LastFlaggedLast | src/main/kotlin/ui/navigation/builder/NavListBuilder.kt:10-28 | the last flagged definition is the default |
| Navigation.DefaultSpec | src/main/kotlin/ui/navigation/builder/NavListBuilder.kt:10-28 | `defaultTarget` is the last flagged target, else the first target, and is undefined exactly on an empty list |
| Navigation.GroupIndex | src/main/kotlin/ui/navigation/builder/NavListBuilder.kt:8 | the position of a group name, or -1 exactly when it is absent |
| Navigation.Names | src/main/kotlin/ui/navigation/builder/NavListBuilder.kt:8 | one name per group |
| Navigation.FirstOfGroup | src/main/kotlin/ui/navigation/builder/NavListBuilder.kt:8 | the index of a group's first target |
| Navigation.GroupBySpec | src/main/kotlin/ui/navigation/builder/NavListBuilder.kt:7-8 | `groupBy` has each group name once, exactly the names used, groups in first-appearance order, each group's targets in definition order |
| Navigation.GroupByGrouped | src/main/kotlin/ui/navigation/builder/NavListBuilder.kt:7-8 | every invariant of the grouping holds for any target list |
| Navigation.GroupedOnce | src/main/kotlin/ui/navigation/builder/NavListBuilder.kt:7-26 | every target appears exactly once, in its own group |
| Navigation.FilterMember | src/main/kotlin/ui/navigation/builder/NavListBuilder.kt:8 | a target is in a group's filtered list exactly when it belongs to that group |
| Navigation.FilterSnoc | src/main/kotlin/ui/navigation/builder/NavListBuilder.kt:8 | filtering a list with one more target adds that target at the end exactly when it passes |
| Navigation.AddNames | src/main/kotlin/ui/navigation/builder/NavListBuilder.kt:8 | adding a target to the groups appends its name exactly when the name is new |
| Navigation.AddDistinct | src/main/kotlin/ui/navigation/builder/NavListBuilder.kt:8 | adding a target keeps the group names distinct |
| Navigation.NewNameUnused | src/main/kotlin/ui/navigation/builder/NavListBuilder.kt:8 | a name with no group is used by no earlier target |
| Navigation.AddFiltered | src/main/kotlin/ui/navigation/builder/NavListBuilder.kt:8 | after adding a target each group is still the filter of the targets by its name |
| Navigation.AddKeepsFirst | src/main/kotlin/ui/navigation/builder/NavListBuilder.kt:8 | adding a target keeps each existing group's name and first target |
| Navigation.AddFirst | src/main/kotlin/ui/navigation/builder/NavListBuilder.kt:8 | adding a target keeps the groups in first-appearance order |
| Navigation.AddAll | src/main/kotlin/ui/navigation/builder/NavListBuilder.kt:8 | adding a target keeps every target in some group |
| Navigation.GroupByStep | src/main/kotlin/ui/navigation/builder/NavListBuilder.kt:7-8 | adding a target adds its group name at the end only when the name is new |
| Navigation.FirstOfGroupPrefix | src/main/kotlin/ui/navigation/builder/NavListBuilder.kt:8 | appending a target does not move an existing group's first target |
| Navigation.AppDefault | src/main/kotlin/ui/navigation/NavTargetList.kt:8-57 | the application's list has "Status" (id 0) as its default target |
| Navigation.LastFlagged | src/main/kotlin/ui/navigation/builder/NavListBuilder.kt:10-28 | the default found is a flagged target, with its id, title and group, and no later target is flagged |
| Navigation.DefaultOf | src/main/kotlin/ui/navigation/builder/NavListBuilder.kt:10-28 | there is a default exactly when some target was declared, and it is one of the targets |
| Navigation.GroupBy | src/main/kotlin/ui/navigation/builder/NavListBuilder.kt:7-8 | there is at most one group per target, and there are groups exactly when there are targets |
| Navigation.NavListBuilder.constructor | src/main/kotlin/ui/navigation/builder/NavListBuilder.kt:15-31 | building from definitions gives their targets, the default and the grouping the functions name |
| Navigation.NavListBuilder.AddTarget | src/main/kotlin/ui/navigation/builder/NavListBuilder.kt:17-29 | the new target gets the next id and is appended; a flagged target becomes the default |

## Left out

- Floating-point colour arithmetic (`LedColor.kt`, `LedColorMixer.kt`) is left out. `LedColor` is an opaque datatype with `Transparent`, full white, `Dark`, an 80 % shade and other colours. `Dark` is used by the timer but is not declared in `LedColor.kt`.
- Fractional rendering is left out, because it is float arithmetic over animation values: the timer's range colouring and tail fade (`TimerModule.kt:70-143`), the health bars (`HealthModule.kt:66-92`) and the animated turn frames (`TurnModule.kt:83-132`).
- Animation easing and timing are left out. Each animation is modelled by the value it runs to. The pseudo-random pick is split into a start step and a finish step, and the health pulse is the set of pulsing players.
- Coroutines, `StateFlow` plumbing and job cancellation are left out. A cancelled run is modelled as one replaced by the next.
- Database I/O is left out: `PlayerRepository`'s add, remove and colour transactions, and the write in `setPlayerName`. `getModuleList()` is called by `ModuleController.kt` but is not declared in the repository, so the model reads `moduleConfigs` instead. Hoplite config loading (`BaseConfig.kt:9-13`) is file I/O, so `ledCount` and `breakPoints` are parameters.
- `activePlayers` and `playerChunks` are not declared in `PlayerRepository.kt`, so the model takes them as inputs: players with unique ids, and a map from player to LED-index chunks.
- The seat map `Map<Int, Player?>` is a sequence indexed by side id.
- Kotlin `Int` overflow is modelled only where the source depends on it: parsing with `toIntOrNull` and the `Long.toInt()` of the timer screen's split. Elsewhere integers are unbounded.
- `Duration` is modelled as whole milliseconds, so sub-millisecond parts are not represented.
- `toIntOrNull` is modelled over ASCII digits only: non-ASCII digits are not accepted.
- Icons and screens are left out of `NavTarget`, because they are Compose values. `NavTarget.kt` and the builder scopes are part of the model only through their title, group name and flag.
- `Settings.SettingsViewModel.MoveModule`: an unknown id or an out-of-range index is an index error in the source. The model returns `ok == false` and changes nothing.
- `TurnControl.TurnViewModel.MovePlayerPosition`: an out-of-range `from` or `to` is an index error in the source (`removeAt`/`add`). The model returns `ok == false` and changes nothing.
- `Navigation.DefaultSpec`: on an empty list `defaultTarget` throws in the source. The model returns `None`.
- `Turns.TurnModule.RefreshLedFilter`: requires every chunk LED to lie inside the strip. The source would throw on an LED outside it.
- `Turns.DoubleSettlesOnChunk`: requires the player's first chunk to exist and be non-empty. The source throws on an empty list of chunks or an empty chunk. The model treats both as "no run".
- `Turns.TurnModule.SetRandomPlayerActive`: `list.random()` is the parameter `pick`, which must index the list.
- `PlayerSides.PlayerSidesModule.OnUpdate`: requires the breakpoints to lie inside the strip. Otherwise the source writes outside the frame and throws.
- `Status.StatusViewModel.SplitSides`: requires every side's LEDs to index the frame. The source reads `colors[ledId]` with no bounds check.
- `Health.HealthModule.SetHealth`: models the pulse as the set of pulsing players, not the alpha animation.
- `Players.PlayerRepository.SetPlayerName`: models only the blank-name guard and its result, not the database write.
- The `EffectsModule`, `LedController` render loop, USB and DMX I/O, dependency injection and the Compose screens other than the logic above are outside this model.

## Findings

| source | as written | input that shows it | evidently intended | confidence | as-written member | corrected member |
|---|---|---|---|---|---|---|
| src/main/kotlin/ui/screens/TimerScreen.kt:139 | editing the seconds rebuilds the duration as `inputMinutes.hours + inputMinutes.minutes + it.seconds`, so the hours are replaced by the minutes | input duration 1 h 0 min 0 s, seconds edited to 5: the result is 5 s | `inputHours.hours + inputMinutes.minutes + it.seconds`, replacing only the seconds as the hours and minutes branches do, giving 1 h 0 min 5 s | not executed | TimerScreen.SecondsEditLosesHours | TimerScreen.SubmitReplacesComponent |
