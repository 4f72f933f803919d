# Conference scheduler core, modelled in Dafny

This project models the core of the PyconUK conference scheduler. The
scheduler places events (talks, workshops) into slots (a venue for a
period of time). A schedule is held as a 0/1 allocation matrix `X`: rows
are events, columns are slots, and `X[e][s] == 1` means event `e` takes
place in slot `s`.

The model covers:

- the resources (`Slot`, the mutable `Event`, the scheduled-item and
  change records);
- the converters between index pairs, arrays and schedules;
- the derived matrices (tags, sessions, slot and event availability) and
  the overlap relation between slots;
- the labelled constraint families of both source trees, chained in their
  fixed order;
- the validator;
- the objective functions;
- the heuristic search: the neighbourhood move, the random initial array,
  hill climbing, simulated annealing and the two-phase `heuristic`
  pipeline;
- the event-keyed and slot-keyed schedule diffs;
- the example the test suite is built on, with the constraint counts,
  objective values and valid allocation its tests expect.

Modules, one per source file (the base modules come first):

| module | file | models |
|---|---|---|
| `Sequences`, `Matrices`, `Ordering`, `Labels` | `sequences.dfy`, `matrices.dfy`, `ordering.dfy`, `labels.dfy` | Python list operations, NumPy matrices as `seq<seq<int>>`, Python string order and `sorted(set(...))`, the decimal labels of constraints |
| `Resources` | `resources.dfy` | `src/conference_scheduler/resources.py`; `Event` is a class whose methods change its list fields |
| `Converter` | `converter.dfy` | `src/conference_scheduler/converter.py` |
| `LpUtils` | `lp_utils.dfy` | `conference_scheduler/lp_problem/utils.py` |
| `Constraints` | `constraints.dfy` | `src/conference_scheduler/lp_problem/constraints.py`, integer sums only |
| `LegacyConstraints` | `legacy_constraints.dfy` | `conference_scheduler/lp_problem/constraints.py` |
| `Validator` | `validator.dfy` | `conference_scheduler/validator.py` |
| `Objectives` | `objectives.dfy` | both `objective_functions.py` files |
| `Neighbourhood` | `neighbourhood.dfy` | `src/conference_scheduler/heuristics/utils.py` |
| `HillClimbing`, `Annealing` | `hill_climbing.dfy`, `annealing.dfy` | the two heuristics |
| `Scheduler` | `scheduler.dfy` | `heuristic` and the two diffs of `src/conference_scheduler/scheduler.py` |
| `Fixture` | `fixture.dfy` | the three events and seven slots of `tests/conftest.py`, with the counts and values the tests expect of them |

Python exceptions are modelled as `None` results:

- `ValueError` from `list.index` or `list.remove`;
- `IndexError` from an out-of-range index;
- the `ValueError` from `randint(0)`.

Random draws are arguments:

- the row to move;
- the raw slot draw in `[0, n-1)`;
- the row permutation of the shuffle;
- the outcome of each annealing acceptance test.

Start times are integer minutes. Warnings are returned flags.

Loop-based code is written as methods with loops, each proved equal to a
specification function:

- the array builders;
- the accumulators of the objective functions;
- the neighbourhood move on an array of rows;
- the initial array;
- the two search loops.

The properties of the source are proved about those functions as lemmas.

The pipeline `heuristic` has no loop. It is a loop-free method that calls
the search methods, proved equal to its specification function.

`src/conference_scheduler/scheduler.py` repeats the four converters with
the same bodies as `converter.py` (lines 253-256, 276-282, 304-307 and
329-333). The rows below cite `converter.py`; the same members model both
copies.

The current tree imports an `lp_problem/utils.py` and a `validator.py`
that are not part of this model. The derived matrices, the tag-sharing
family and the validator are therefore modelled from the older
`conference_scheduler/` tree. The two disagree on the event-availability
matrix: the visible builder zeroes only explicitly unavailable pairs, while
the docstring of the current clash family also names shared tags. So the
clash family takes that matrix as an argument (`EA`).

## Model

| member | source | states |
|---|---|---|
| Sequences.IndexOf | src/conference_scheduler/converter.py:90 | `list.index`: the position of the first occurrence of the item |
| Sequences.Find | src/conference_scheduler/heuristics/utils.py:15 | `np.where(row == 1)[0][0]`: absent exactly when the row has no 1, otherwise the first position holding it |
| Sequences.RemoveFirst | src/conference_scheduler/resources.py:150 | `list.remove`: one element shorter, the same multiset minus the item, and the list with exactly its first occurrence cut out |
| Matrices.SumOfBinaryRow | src/conference_scheduler/lp_problem/constraints.py:15 | on a 0/1 row, the sum is 1 iff the row holds exactly one 1, and at most 1 iff it holds at most one 1 |
| Matrices.NonzeroCells | src/conference_scheduler/converter.py:113 | `np.transpose(np.nonzero(X))`: exactly the nonzero cells, in row-major order |
| Ordering.StrLessIsStrictTotalOrder | src/conference_scheduler/scheduler.py:396 | Python's string comparison is a strict total order, so sorting by name is well defined |
| Ordering.SortedUnique | conference_scheduler/lp_problem/utils.py:40 | `sorted(set(xs))`: strictly increasing, with exactly the elements of `xs` |
| Ordering.StrictlySortedUnique | conference_scheduler/lp_problem/utils.py:56 | two strictly sorted lists with the same elements are equal, so `sorted(set(...))` has one result |
| Labels.ParseNatToString | src/conference_scheduler/lp_problem/constraints.py:14 | the decimal form of an index in a label reads back as that index |
| Labels.EventLabelInjective | src/conference_scheduler/lp_problem/constraints.py:14 | labels `'<text> - event: i'` of different events differ |
| Resources.Event.constructor | src/conference_scheduler/resources.py:91-100 | stores name, duration and demand; an omitted `tags` or `unavailability` starts as an empty list |
| Resources.DefaultListsAreIndependent | src/conference_scheduler/resources.py:95-100 | two events built without tags get separate lists: adding a tag to one leaves the other's and an earlier snapshot empty |
| Resources.Event.Unavailability | src/conference_scheduler/resources.py:127-129 | the accessor is a snapshot equal to the current unavailability list |
| Resources.Event.Tags | src/conference_scheduler/resources.py:141-143 | the accessor is a snapshot equal to the current tag list |
| Resources.Event.Value | src/conference_scheduler/resources.py:110-119 | the value `==` compares: the five fields |
| Resources.Event.Equals | src/conference_scheduler/resources.py:110-119 | equal to an event exactly when name, duration, demand, tags and unavailability all agree; never equal to a slot |
| Resources.Event.AddUnavailability | src/conference_scheduler/resources.py:131-133 | appends the arguments, in order, at the end; every other field unchanged |
| Resources.Event.RemoveUnavailability | src/conference_scheduler/resources.py:135-136 | fails exactly when the item is absent (list unchanged); otherwise removes only its first occurrence; every other field unchanged |
| Resources.Event.ClearUnavailability | src/conference_scheduler/resources.py:138-139 | empties only the unavailability list |
| Resources.Event.AddTags | src/conference_scheduler/resources.py:145-147 | appends the arguments, in order, at the end; every other field unchanged |
| Resources.Event.RemoveTag | src/conference_scheduler/resources.py:149-150 | fails exactly when the tag is absent (list unchanged); otherwise removes only its first occurrence; every other field unchanged |
| Resources.Event.ClearTags | src/conference_scheduler/resources.py:152-153 | empties only the tag list |
| Converter.Marked | src/conference_scheduler/converter.py:37-40 | an E×S 0/1 array whose cell (i, j) is 1 iff (i, j) is among the listed cells |
| Converter.SolutionToArray | src/conference_scheduler/converter.py:37-40 | fails exactly when a pair is out of range; otherwise an E×S 0/1 array with (i, j) set iff the pair occurs |
| Converter.SolutionSchedule | src/conference_scheduler/converter.py:60-66 | fails exactly when a pair is out of range; otherwise the same length and order, item k being (events[i_k], slots[j_k]) |
| Converter.ItemCells | src/conference_scheduler/converter.py:90 | for each item, the first index of its event and the first index of its slot |
| Converter.ScheduleToArray | src/conference_scheduler/converter.py:88-91 | fails exactly when an item's event or slot is not listed; otherwise a 0/1 array of the lists' shape |
| Converter.ArraySchedule | src/conference_scheduler/converter.py:113-117 | one item per nonzero cell, in row-major order; fails when a nonzero cell lies outside the lists |
| Converter.ItemCellsOfSolution | src/conference_scheduler/converter.py:60-66 | with duplicate-free lists, reading indices back from the schedule of a solution gives the solution |
| Converter.SolutionArrayViaSchedule | src/conference_scheduler/converter.py:37-40 | with duplicate-free lists, `solution_to_array` equals `schedule_to_array` of `solution_to_schedule` |
| Converter.MarkedNonzero | src/conference_scheduler/converter.py:113 | marking the nonzero cells of a 0/1 array gives the array back |
| Converter.ArrayScheduleRoundTrip | src/conference_scheduler/converter.py:88-117 | for a 0/1 array and duplicate-free lists, `schedule_to_array(array_to_schedule(A)) == A` |
| LpUtils.AllTags | conference_scheduler/lp_problem/utils.py:40 | the distinct tags of all events, strictly sorted |
| LpUtils.TagMatrixRows | conference_scheduler/lp_problem/utils.py:40-45 | the cell of an event's row at a tag's column is 1 iff the event carries that tag |
| LpUtils.TagArray | conference_scheduler/lp_problem/utils.py:41-45 | the loop builds the tag matrix: one row per event, one 0/1 column per distinct tag |
| LpUtils.AllSessions | conference_scheduler/lp_problem/utils.py:56 | the distinct session labels, strictly sorted |
| LpUtils.SessionColumnsHaveOneOne | conference_scheduler/lp_problem/utils.py:56-60 | every slot column of the session matrix holds exactly one 1 (its sum is 1) |
| LpUtils.SessionArray | conference_scheduler/lp_problem/utils.py:57-60 | the loop builds the session matrix |
| LpUtils.SlotAvailabilityArray | conference_scheduler/lp_problem/utils.py:73-78 | a 0/1 E×S array, 0 exactly where the slot is in the event's unavailability or the event is longer than the slot |
| LpUtils.Lists | conference_scheduler/lp_problem/utils.py:94-95 | `other_event in event.unavailability` by `__eq__`: true iff some listed item is an event whose five fields all agree; a listed slot never matches |
| LpUtils.EventAvailabilityArray | conference_scheduler/lp_problem/utils.py:91-97 | a 0/1 E×E array, 0 at (r, c) exactly when c is in r's unavailability or r is in c's |
| LpUtils.EventAvailabilitySymmetric | conference_scheduler/lp_problem/utils.py:91-97 | the event-availability matrix is symmetric, and a diagonal entry is 0 exactly when the event lists itself (no `row != col` guard) |
| LpUtils.SlotsOverlap | conference_scheduler/lp_problem/utils.py:109-119 | slots that start together or end together overlap; overlapping slots of non-negative duration share a moment |
| LpUtils.SlotsOverlapProperties | conference_scheduler/lp_problem/utils.py:109-119 | containment with ends included: reflexive, symmetric, and false for a partial overlap |
| LpUtils.ConcurrentSlots | conference_scheduler/lp_problem/utils.py:122-129 | exactly the pairs i < j of overlapping slots, in lexicographic order |
| LpUtils.SlotsInSession | conference_scheduler/lp_problem/utils.py:132-136 | exactly the slot columns with a nonzero in the session's row, increasing |
| LpUtils.EventsWithDiffTag | conference_scheduler/lp_problem/utils.py:139-144 | increasing event indices within range |
| LpUtils.SharedTagsSpec | conference_scheduler/lp_problem/utils.py:144 | the column sum over an event's tags is 0 iff the other event shares none of them |
| LpUtils.EventsWithDiffTagSpec | conference_scheduler/lp_problem/utils.py:139-144 | for an event with a tag: exactly the events sharing no tag with it, never itself; for a tagless event: `[0]` |
| LpUtils.TaglessDiff | conference_scheduler/lp_problem/utils.py:143-144 | an event with no tag is given `[0]` |
| LpUtils.TaggedDiff | conference_scheduler/lp_problem/utils.py:143-144 | an event with a tag is given exactly the events sharing none of its tags, and not itself |
| LpUtils.TaggedDiffMember | conference_scheduler/lp_problem/utils.py:143-144 | given one tag of the event, an index is listed iff it is an event sharing none of the event's tags |
| Constraints.ScheduleAllEvents | src/conference_scheduler/lp_problem/constraints.py:11-16 | E constraints in event order, labelled `'<text> - event: i'` |
| Constraints.ScheduleAllEventsHolds | src/conference_scheduler/lp_problem/constraints.py:15 | on a 0/1 array, event i's constraint holds iff its row has exactly one 1 |
| Constraints.ScheduleAllHold | src/conference_scheduler/lp_problem/constraints.py:11-16 | the family holds iff every event is scheduled exactly once |
| Constraints.MaxOneEventPerSlot | src/conference_scheduler/lp_problem/constraints.py:24-29 | S constraints in slot order, labelled `'<text> - slot: j'` |
| Constraints.MaxOneEventPerSlotHolds | src/conference_scheduler/lp_problem/constraints.py:28 | on a 0/1 array, slot j's constraint holds iff its column has at most one 1 |
| Constraints.MaxOneHold | src/conference_scheduler/lp_problem/constraints.py:24-29 | the family holds iff no slot holds two events |
| Constraints.UnavailableCells | src/conference_scheduler/lp_problem/constraints.py:41-43 | exactly the zero cells of the slot-availability matrix, in row-major order |
| Constraints.EventsAvailableInScheduledSlot | src/conference_scheduler/lp_problem/constraints.py:37-47 | one constraint per zero cell, in row-major order, labelled `'<text> - event: r, slot: c'`, true iff X is 0 there |
| Constraints.AvailabilityHolds | src/conference_scheduler/lp_problem/constraints.py:37-47 | the family holds iff no event sits in a slot it cannot take |
| Constraints.ClashConstraints | src/conference_scheduler/lp_problem/constraints.py:62-72 | one constraint for each concurrent pair and each listed cell, pairs outermost |
| Constraints.ClashConstraintsComplete | src/conference_scheduler/lp_problem/constraints.py:62-72 | every (pair, cell) combination yields its constraint |
| Constraints.ClashConstraintsSound | src/conference_scheduler/lp_problem/constraints.py:62-72 | every emitted constraint comes from some (pair, cell) combination |
| Constraints.ClashConstraintsHold | src/conference_scheduler/lp_problem/constraints.py:62-72 | the block holds iff each (pair, cell) constraint holds |
| Constraints.ClashCells | src/conference_scheduler/lp_problem/constraints.py:63-66 | exactly the cells (r, c) whose row event has a non-empty unavailability and whose availability is 0, in row-major order |
| Constraints.EventsAvailableDuringOtherEvents | src/conference_scheduler/lp_problem/constraints.py:50-72 | concurrent pairs times clash cells constraints |
| Constraints.ListedClashHolds | src/conference_scheduler/lp_problem/constraints.py:69-71 | a holding constraint gives `X[r][s1] + X[c][s2] <= 1 + EA[r][c]` |
| Constraints.NoClashAt | src/conference_scheduler/lp_problem/constraints.py:58-72 | if the family holds, no event with unavailability sits with an unavailable partner in a concurrent pair of slots |
| Constraints.ClashesHoldIf | src/conference_scheduler/lp_problem/constraints.py:58-72 | the family holding implies no such clash |
| Constraints.ClashesHoldOnlyIf | src/conference_scheduler/lp_problem/constraints.py:58-72 | on a 0/1 array with no such clash, the family holds |
| Constraints.AllHoldAppend | src/conference_scheduler/lp_problem/constraints.py:89-91 | a chain of families holds iff each family holds |
| Constraints.AllConstraints | src/conference_scheduler/lp_problem/constraints.py:75-91 | exactly the four families in their fixed order: E + S + unavailable cells + pairs × clash cells constraints |
| Constraints.AllConstraintsHold | src/conference_scheduler/lp_problem/constraints.py:75-91 | on a 0/1 array all constraints hold iff every event is scheduled once, no slot twice, no unavailable slot is used and no clash occurs |
| LegacyConstraints.Matches | conference_scheduler/lp_problem/constraints.py:36-37 | the other events of one other slot, kept when the slots and the events differ |
| LegacyConstraints.Partners | conference_scheduler/lp_problem/constraints.py:36-43 | `it.product(slots, other_events)` filtered by `other_slot != slot and other_event != event` |
| LegacyConstraints.EventQuads | conference_scheduler/lp_problem/constraints.py:34-36 | every event of a slot against its partners |
| LegacyConstraints.SlotQuads | conference_scheduler/lp_problem/constraints.py:34-36 | every (slot, event) of a session against its partners |
| LegacyConstraints.SessionQuads | conference_scheduler/lp_problem/constraints.py:32-43 | for the first h sessions, exactly the quads of distinct slots sharing a session and distinct events with no common tag |
| LegacyConstraints.SharedSessionIsSameLabel | conference_scheduler/lp_problem/constraints.py:33 | with the session matrix of the slots, two slots share a session row iff they carry the same session label |
| LegacyConstraints.DiffTable | conference_scheduler/lp_problem/constraints.py:35 | `_events_with_diff_tag` for every event |
| LegacyConstraints.TagQuads | conference_scheduler/lp_problem/constraints.py:30-43 | exactly the cell pairs the tag family constrains |
| LegacyConstraints.EventsInSessionShareATag | conference_scheduler/lp_problem/constraints.py:24-43 | one constraint per quad, in generator order, labelled with the first cell |
| LegacyConstraints.TagConstraintMeaning | conference_scheduler/lp_problem/constraints.py:40-43 | on 0/1 rows, `X[e,s] + X[e',s'] <= 1` holds iff the two cells are not both 1 |
| LegacyConstraints.TagConstraintsHold | conference_scheduler/lp_problem/constraints.py:40-43 | a list of tag constraints holds iff none of its cell pairs is fully occupied |
| LegacyConstraints.TagFamilyHolds | conference_scheduler/lp_problem/constraints.py:24-43 | the family holds iff no two tag-disjoint events occupy different slots of one session |
| LegacyConstraints.TagQuadsSymmetric | conference_scheduler/lp_problem/constraints.py:32-43 | when every event has a tag, each quad (e, s, e', s') is matched by (e', s', e, s) |
| LegacyConstraints.MatchesLength | conference_scheduler/lp_problem/constraints.py:36-37 | one other slot yields a quad per partner other than the event itself, or none when it is the same slot |
| LegacyConstraints.PartnersLength | conference_scheduler/lp_problem/constraints.py:36-37 | (slots other than the event's own) × (partners other than the event itself) quads |
| LegacyConstraints.EventQuadsLength | conference_scheduler/lp_problem/constraints.py:34-37 | the events of one slot yield their partner counts, summed, times the other slots of the session |
| LegacyConstraints.SlotQuadsLength | conference_scheduler/lp_problem/constraints.py:34-37 | a session yields (pairs of distinct slots) × (total partner count) quads |
| LegacyConstraints.SessionQuadsLength | conference_scheduler/lp_problem/constraints.py:32-37 | the first h sessions yield their distinct-slot pairs, summed, times the total partner count |
| LegacyConstraints.TagQuadsLength | conference_scheduler/lp_problem/constraints.py:24-43 | the family has (ordered pairs of distinct slots in a session) × (ordered pairs of distinct events with no common tag) constraints |
| LegacyConstraints.UnlikeDistinct | conference_scheduler/lp_problem/constraints.py:36-37 | in a session's increasing slot list, a slot of the session differs from all the others |
| LegacyConstraints.DistinctPairsOfSlots | conference_scheduler/lp_problem/constraints.py:34-37 | each slot of the session pairs with every other slot of it |
| LegacyConstraints.DistinctPairsOfSession | conference_scheduler/lp_problem/constraints.py:34-37 | a session of p slots holds p·(p − 1) ordered pairs of distinct slots |
| LegacyConstraints.AllCells | conference_scheduler/lp_problem/constraints.py:52-53 | every cell of the grid, once, in row-major order |
| LegacyConstraints.LegacySlotAvailability | conference_scheduler/lp_problem/constraints.py:46-57 | one constraint per cell, E × S in all |
| LegacyConstraints.LegacySlotAvailabilityHolds | conference_scheduler/lp_problem/constraints.py:46-57 | on 0/1 arrays, holds iff no event uses a zero cell of the availability matrix |
| LegacyConstraints.LegacyClashes | conference_scheduler/lp_problem/constraints.py:60-74 | one constraint per concurrent pair and per (r, c): pairs × E² |
| LegacyConstraints.LegacyClashesHold | conference_scheduler/lp_problem/constraints.py:60-74 | on 0/1 arrays, the family holds iff no mutually unavailable events sit in a concurrent pair |
| LegacyConstraints.NoLegacyClashAt | conference_scheduler/lp_problem/constraints.py:68-74 | a holding family rules out each such clash |
| LegacyConstraints.LegacyClashFails | conference_scheduler/lp_problem/constraints.py:68-74 | a failing family shows a clash |
| LegacyConstraints.LegacyClashWitness | conference_scheduler/lp_problem/constraints.py:68-74 | only a zero-availability cell can fail, and a failing one is a clash |
| LegacyConstraints.LegacyAllConstraints | conference_scheduler/lp_problem/constraints.py:77-99 | all-events, one-per-slot, tag-sharing, slot availability, clash, in that order and nothing else |
| Validator.Violations | conference_scheduler/validator.py:27-32 | exactly the labels of the false constraints, empty iff all hold |
| Validator.ViolationsAppend | conference_scheduler/validator.py:27-32 | the violations of a chain are those of each part, in generator order |
| Validator.ConstraintViolations | conference_scheduler/validator.py:4-32 | empty iff every generated constraint holds |
| Validator.IsValidArray | conference_scheduler/validator.py:59-63 | false for an empty array; otherwise true iff no constraint is violated |
| Validator.IsValidScheduleAsWritten | conference_scheduler/validator.py:89-92 | false for an empty schedule; fails when an item is not listed; otherwise `is_valid_array` without the caller's constraints |
| Validator.IsValidSchedule | conference_scheduler/validator.py:66-92 | false for an empty schedule; true iff it converts and every constraint, the caller's included, holds |
| Validator.IsValidScheduleWithoutConstraints | conference_scheduler/validator.py:89-92 | without extra constraints the two versions agree |
| Validator.IsValidScheduleDropsConstraints | conference_scheduler/validator.py:92 | one event in one slot with a failing extra constraint is declared valid as written, invalid as intended |
| Validator.ScheduleViolations | conference_scheduler/validator.py:116-118 | fails when an item is not listed; otherwise the violations of the converted array, empty iff all hold |
| Validator.ValidIffNoViolations | conference_scheduler/validator.py:89-118 | a non-empty schedule that converts is valid iff it has no violations |
| Objectives.EfficiencyCapacityDemandDifference | src/conference_scheduler/lp_problem/objective_functions.py:8-12 | the sum over all cells of `(demand − capacity) · X` |
| Objectives.OverflowOfZeros | src/conference_scheduler/lp_problem/objective_functions.py:8-12 | 0 for an all-zero array |
| Objectives.OverflowOfAssignment | src/conference_scheduler/lp_problem/objective_functions.py:8-12 | with one unit row per event, the sum of demand minus the capacity of the event's slot |
| Objectives.CapacityDemandDifference | conference_scheduler/lp_problem/objective_functions.py:6-10 | the sum of `(capacity − demand) · X`: the negation of the newer efficiency value |
| Objectives.EquityCapacityDemandDifference | src/conference_scheduler/lp_problem/objective_functions.py:14-19 | the value is the caller's `beta`, the LP's bound variable, passed through unchanged |
| Objectives.EquityIgnoresArray | src/conference_scheduler/lp_problem/objective_functions.py:14-19 | returns `beta`, whatever the array |
| Objectives.CountChanges | src/conference_scheduler/lp_problem/objective_functions.py:30-36 | the loop adds X at zero cells of the original and `1 − X` at the others |
| Objectives.NumberOfChanges | src/conference_scheduler/lp_problem/objective_functions.py:22-36 | fails when the original schedule does not convert; otherwise the change count against the converted original |
| Objectives.ChangesAreMismatches | src/conference_scheduler/lp_problem/objective_functions.py:30-35 | on 0/1 arrays the count is the number of cells where the two differ |
| Objectives.ChangesOfSelf | src/conference_scheduler/lp_problem/objective_functions.py:27-36 | 0 against itself, and symmetric on 0/1 arrays |
| Neighbourhood.Target | src/conference_scheduler/heuristics/utils.py:17-19 | the raw draw, skipping the current slot: never the current slot |
| Neighbourhood.OnesInColumn | src/conference_scheduler/heuristics/utils.py:20 | exactly the rows with a 1 in the target column, increasing |
| Neighbourhood.Neighbour | src/conference_scheduler/heuristics/utils.py:11-30 | the move as a value; fails without events, without a 1 in the row, or with fewer than two slots; keeps the shape |
| Neighbourhood.SwapRows | src/conference_scheduler/heuristics/utils.py:27-28 | the two rows exchanged, shape kept |
| Neighbourhood.ElementFromNeighbourhood | src/conference_scheduler/heuristics/utils.py:3-30 | the copy-and-overwrite method computes the move; the argument is a value and stays untouched |
| Neighbourhood.MoveToEmptySlot | src/conference_scheduler/heuristics/utils.py:22-24 | the moved row of the copy becomes the unit row of the target slot; no other row changes |
| Neighbourhood.SwapArrayRows | src/conference_scheduler/heuristics/utils.py:26-28 | the two rows of the copy are exchanged in place; no other row changes |
| Neighbourhood.TargetInRange | src/conference_scheduler/heuristics/utils.py:15-19 | the target lies in [0, n) and differs from the moved event's slot |
| Neighbourhood.NeighbourChangesAtMostTwoRows | src/conference_scheduler/heuristics/utils.py:22-28 | apart from the moved row, at most one row changes |
| Neighbourhood.RelocateKeepsAssignment | src/conference_scheduler/heuristics/utils.py:22-24 | moving an event to an empty slot keeps one 1 per row and at most one per column |
| Neighbourhood.SwapKeepsAssignment | src/conference_scheduler/heuristics/utils.py:26-28 | exchanging two rows keeps one 1 per row and at most one per column |
| Neighbourhood.NeighbourKeepsAssignment | src/conference_scheduler/heuristics/utils.py:14-28 | on such an array with n ≥ 2 the move never fails and keeps both properties |
| Neighbourhood.InitialArray | src/conference_scheduler/heuristics/utils.py:41-44 | defined exactly when m ≤ n: the diagonal array with rows permuted |
| Neighbourhood.GetInitialArray | src/conference_scheduler/heuristics/utils.py:32-45 | the diagonal loop and the row shuffle compute the initial array, failing when m > n |
| Neighbourhood.InitialArraySpec | src/conference_scheduler/heuristics/utils.py:41-44 | one 1 per row and at most one per column; columns below m hold exactly one 1; the rest are empty |
| HillClimbing.Step | src/conference_scheduler/heuristics/hill_climber.py:37-42 | a candidate replaces X only with a strictly lower energy within the acceptance bound |
| HillClimbing.ClimbFrom | src/conference_scheduler/heuristics/hill_climber.py:31-42 | the loop keeps the shape and `current_energy == objective(X)` |
| HillClimbing.ClimbFromSpec | src/conference_scheduler/heuristics/hill_climber.py:31-42 | energy never rises; X changes only with a strict drop; admissibility is kept; it stops at the bound or after `max_iterations + 1` candidates (none when `max_iterations` is negative); from at or below the bound, or with the budget spent, nothing is drawn |
| HillClimbing.HillClimbSpec | src/conference_scheduler/heuristics/hill_climber.py:24-47 | the result is no worse than the initial array and within the acceptance bound; an initial array at the bound, or any initial array when `max_iterations` is negative, is returned as is |
| HillClimbing.DrawCandidate | src/conference_scheduler/heuristics/hill_climber.py:34-35 | the move drawn in the loop continues the run or ends it with a failure |
| HillClimbing.HillClimber | src/conference_scheduler/heuristics/hill_climber.py:4-47 | the loop computes the run for any integer `max_iterations`, negative included; it warns iff the bound is finite and the final energy differs from it |
| HillClimbing.ClimbKeepsAssignment | src/conference_scheduler/heuristics/hill_climber.py:31-42 | started on an assignment with n ≥ 2 it never fails and ends on an assignment |
| Annealing.Cool | src/conference_scheduler/heuristics/simulated_annealing.py:48 | a zero temperature stays zero |
| Annealing.AnnealStep | src/conference_scheduler/heuristics/simulated_annealing.py:37-48 | a strict improvement is taken and becomes the best; a non-improving candidate is taken only at positive temperature when the draw says so; the best changes only on a strict improvement |
| Annealing.AnnealFrom | src/conference_scheduler/heuristics/simulated_annealing.py:31-48 | the loop keeps both shapes and both energies equal to the objective |
| Annealing.AnnealFromStops | src/conference_scheduler/heuristics/simulated_annealing.py:31-33 | stops at the bound or after `max_iterations + 1` candidates (none when `max_iterations` is negative), as the climber does; from at or below the bound, or with the budget spent, nothing is drawn |
| Annealing.AnnealAtZeroIsClimb | src/conference_scheduler/heuristics/simulated_annealing.py:43-48 | at temperature 0 the run is the climber's run, the best is the current array, and the temperature stays 0 |
| Annealing.AnnealingAtZeroIsHillClimbing | src/conference_scheduler/heuristics/simulated_annealing.py:19-20 | from temperature 0 the result equals `hill_climber`'s, with the same final energy |
| Annealing.AnnealKeepsAssignment | src/conference_scheduler/heuristics/simulated_annealing.py:31-48 | started on an assignment it never fails; current and best stay assignments |
| Annealing.Turn | src/conference_scheduler/heuristics/simulated_annealing.py:37-48 | the loop body computes one annealing step |
| Annealing.DrawCandidate | src/conference_scheduler/heuristics/simulated_annealing.py:34-35 | the move drawn in the loop continues the run or ends it with a failure |
| Annealing.SimulatedAnnealing | src/conference_scheduler/heuristics/simulated_annealing.py:5-53 | the loop computes the run for any integer `max_iterations`, negative included; returns `best_X`, not X; the warning is decided on the current energy |
| Scheduler.Searched | src/conference_scheduler/scheduler.py:82-95 | the chosen algorithm's result keeps the array's shape |
| Scheduler.RunSearch | src/conference_scheduler/scheduler.py:82-95 | calls the chosen algorithm and drops its warning |
| Scheduler.SearchKeepsAssignment | src/conference_scheduler/scheduler.py:82-95 | either algorithm, started on an assignment with n ≥ 2, returns an assignment |
| Scheduler.HeuristicResult | src/conference_scheduler/scheduler.py:77-97 | the initial array, phase 1 (violations, bound 0, failing when its keyword arguments carry a second `lower_bound`), phase 2 (objective, with the bound its keyword arguments carry) only when given, then the nonzero cells |
| Scheduler.Heuristic | src/conference_scheduler/scheduler.py:31-97 | the method computes the pipeline |
| Scheduler.AssignmentCells | src/conference_scheduler/scheduler.py:97 | the nonzero cells of an assignment schedule every event once, no slot twice |
| Scheduler.HeuristicSpec | src/conference_scheduler/scheduler.py:77-97 | fails with more events than slots or a second phase-1 `lower_bound`; otherwise, with 1 ≤ E ≤ S and S ≥ 2, it returns such a solution |
| Scheduler.Last | src/conference_scheduler/scheduler.py:375 | the item a dict keyed by name keeps: the last with that key |
| Scheduler.Index | src/conference_scheduler/scheduler.py:375-376 | the dict comprehension: a key maps to its last item |
| Scheduler.Records | src/conference_scheduler/scheduler.py:382-395 | exactly the records the keys produce |
| Scheduler.RecordsInKeyOrder | src/conference_scheduler/scheduler.py:396 | records made over strictly sorted keys come out strictly sorted by key |
| Scheduler.EventChangeOf | src/conference_scheduler/scheduler.py:378-395 | a record for a name carries it, and its old and new slots differ |
| Scheduler.EventChangeAgrees | src/conference_scheduler/scheduler.py:375-395 | the dict-based comprehensions agree with reading the two schedules |
| Scheduler.EventScheduleDifference | src/conference_scheduler/scheduler.py:339-396 | exactly the changed, added and removed events, one record per name, strictly sorted by name |
| Scheduler.EventDifferenceEmpty | src/conference_scheduler/scheduler.py:378-396 | the diff is empty iff no event changed, appeared or disappeared |
| Scheduler.EventDifferenceOfSelf | src/conference_scheduler/scheduler.py:378-396 | a schedule against itself gives an empty diff |
| Scheduler.SlotLessIsStrictTotalOrder | src/conference_scheduler/scheduler.py:455-458 | the slot order used to sort is a strict total order |
| Scheduler.SlotChangeOf | src/conference_scheduler/scheduler.py:437-454 | a record for a slot carries it, and its old and new events differ |
| Scheduler.SlotChangeAgrees | src/conference_scheduler/scheduler.py:434-454 | the dict-based comprehensions agree with reading the two schedules |
| Scheduler.SlotScheduleDifference | src/conference_scheduler/scheduler.py:399-458 | exactly the changed, added and removed slots, one record per slot, sorted by (venue, start) |
| Scheduler.SlotDifferenceEmpty | src/conference_scheduler/scheduler.py:437-458 | the diff is empty iff no slot changed, appeared or disappeared |
| Scheduler.SlotDifferenceOfSelf | src/conference_scheduler/scheduler.py:437-458 | a schedule against itself gives an empty diff |
| Fixture.FixtureOverlaps | tests/conftest.py:11-28 | of the seven test slots, exactly the pairs (0,5), (1,5), (2,6), (3,6) and (4,6) overlap |
| Fixture.FixtureConcurrentSlots | tests/conftest.py:11-28 | `concurrent_slots` of the test slots is those five pairs, in that order |
| Fixture.FixtureSlotUnavailable | tests/conftest.py:11-51 | an event cannot go in a slot exactly at the nine listed cells: Talk 1's two slots, Talk 2's two slots, and the five half-hour slots for the hour-long workshop |
| Fixture.FixtureUnavailableCells | tests/conftest.py:11-51 | the unavailable cells are those nine, in row-major order |
| Fixture.FixtureAvailabilityCount | tests/lp_problem/test_constraints.py:65-69 | the availability family has 9 constraints |
| Fixture.FixtureEventAvailability | tests/conftest.py:31-51 | built from the listings alone, the event-availability matrix separates only Talk 1 and Talk 2 |
| Fixture.FixtureVisibleClashCells | tests/conftest.py:31-51 | with that matrix the clash cells are (0,1) and (1,0) |
| Fixture.FixtureVisibleClashCount | tests/lp_problem/test_constraints.py:99-102 | with that matrix the clash family has 10 constraints, not the 15 the test expects |
| Fixture.FixtureTagAwareClashCells | tests/conftest.py:31-51 | when events sharing a tag are also kept apart, the clash cells are (0,1), (1,0) and (1,2) |
| Fixture.FixtureTagAwareClashCount | tests/lp_problem/test_constraints.py:99-102 | with the tag-aware matrix the clash family has the 15 constraints the test expects |
| Fixture.FixtureConstraintCount | tests/lp_problem/test_constraints.py:131-135 | all families together have 34 constraints: 3 + 7 + 9 + 15 |
| Fixture.FixtureValidArrayFeasible | tests/conftest.py:98-104 | the valid array is feasible and meets every constraint, with the tag-aware matrix |
| Fixture.FixtureOverflow | tests/lp_problem/test_objective_functions.py:11-26 | demand minus capacity is 400 and 440 on the two test arrays, so `capacity_demand_difference` gives -400 and -440 |
| Fixture.FixtureChangesOneMove | tests/lp_problem/test_objective_functions.py:29-45 | moving Talk 1 from slot 0 to slot 1 counts 2 changes |
| Fixture.FixtureChangesMany | tests/lp_problem/test_objective_functions.py:29-52 | the third test array counts 7 changes against the first |
| Fixture.FixtureSessions | tests/conftest.py:11-28 | the sorted session labels of the test slots are the four `01 Morning A` … `04 Afternoon B` |
| Fixture.FixtureSessionMatrix | tests/conftest.py:11-28 | the session matrix puts slots 0–2, 3–4, 5 and 6 in the four sessions |
| Fixture.SessionSlotsOf | conference_scheduler/lp_problem/utils.py:132-136 | `_slots_in_session` of each row of that matrix |
| Fixture.SessionPairsOf | tests/conftest.py:11-28 | the sessions hold 6 + 2 + 0 + 0 = 8 ordered pairs of distinct slots |
| Fixture.FixtureTags | tests/conftest.py:31-51 | the sorted tags of the test events are `community` and `documentation` |
| Fixture.FixtureTagMatrix | tests/conftest.py:31-51 | the tag matrix is [[1, 0], [1, 1], [0, 1]] |
| Fixture.DiffRowOf | conference_scheduler/lp_problem/utils.py:139-144 | `_events_with_diff_tag` gives Talk 1 `[2]`, Talk 2 `[]` and the workshop `[0]` |
| Fixture.PartnersOfTags | tests/conftest.py:31-51 | two ordered pairs of events share no tag: Talk 1 and the workshop, both ways |
| Fixture.FixtureTagConstraintCount | conference_scheduler/tests/lp_problem/test_constraints.py:65-68 | the older tag family has the 16 constraints the test expects: 8 slot pairs × 2 event pairs |
| Fixture.FixtureLegacyConstraintCount | conference_scheduler/tests/lp_problem/test_constraints.py:169-177 | the older `constraints` has the 92 the test expects: 3 + 7 + 16 + 21 (one per cell, as at lines 96-100) + 45 (five concurrent pairs × 9 cell pairs, as at lines 130-136) |

## Left out

- The exact ILP path: `solution`, `array` and `schedule` (src/conference_scheduler/scheduler.py:100-217) and `lpsum`, `variables` and `summation_functions` (conference_scheduler/lp_problem/utils.py:12-30). They call pulp, a foreign solver. Only the integer-sum path is modelled.
- Random number generation and seeding. Every draw is an argument, so the seed-specific arrays of the heuristic tests are not reproduced.
- Annealing.AnnealStep: `np.random.random() < np.exp(-delta / temperature)` is an oracle boolean per iteration. The exponential is not computed.
- Annealing.Cool: the temperature is a `real`. Floating-point rounding of `cooldown_rate ** iterations` is not modelled.
- `warnings.warn` is a returned flag, and `heuristic` ignores it, as the source does.
- `Event.__repr__`, `Event.__hash__` and `__ne__` are left out: string formatting and hashing.
- Resources.Event.constructor: the tag and unavailability lists are sequence-valued fields. So the aliasing of a list the caller passed in (src/conference_scheduler/resources.py:97, 100) is not modelled. A later change to the caller's list does not reach the event.
- LpUtils.Lists and LpUtils.EventAvailabilitySymmetric: a listed event is stored as its value at the time it is listed (`Resource.EventItem`). Python stores the object, and `list.__contains__` tries identity before `==`. So after a change to the listed event, such as `add_tags`, the model's `Lists` is false where `event_availability_array` still finds the event (conference_scheduler/lp_problem/utils.py:94-97).
- LpUtils.EventAvailabilitySymmetric: an event that lists itself, and two events that list each other, cannot be written as values. `e.add_unavailability(e)` puts a 0 on Python's diagonal. The model's diagonal is always 1 (Resources.NotSelfUnavailable).
- Resources.Event.RemoveTag and Resources.Event.RemoveUnavailability return `false` where Python raises `ValueError`.
- `start_and_end_dates` (conference_scheduler/lp_problem/utils.py:100-106) parses strings into datetimes. Start times here are integer minutes, and the end is start plus duration.
- Scheduler.SlotScheduleDifference: slots are sorted by a total order that starts with (venue, start). Python's stable sort keeps ties in set order, which is unspecified. The model breaks ties by duration, capacity and session instead, and proves the result is ordered by (venue, start).
- Scheduler.EventScheduleDifference: names are unique in the result, so sorting by name fixes the order. Records are built in sorted name order rather than in set order.
- `array_violations` in `heuristic` is not part of this model: the current tree's validator is not available. The violation count is a function argument, and so is the caller's objective.
- The current tree's `lp_problem/utils.py` and `validator.py` are not part of this model. The event-availability matrix of the current clash family is an argument, for the reason given above.
- `sessions` in the validator and the generators of `scheduler._all_constraints` are not part of this model. The constraint generator is a function argument.
- Stub or broken files of the older tree are left out: `scheduler.py`, `resources.py`, `parameters.py`, `constraints.py` and the tests that target classes that do not exist. Sphinx tooling and packaging are left out too.
- LpUtils.EventsWithDiffTag is modelled as written. For a tagless event NumPy sums an empty selection to the scalar 0, so the result is `[0]`. LpUtils.EventsWithDiffTagSpec states this case separately, and LegacyConstraints.TagQuadsSymmetric assumes every event has a tag.
- Negative indices in a solution are treated as out of range. In Python they would wrap to the end of the list.
- NumPy dtypes are not modelled: the arrays hold unbounded integers. `int8` cannot overflow for 0/1 arrays.
- The tests expect `add_tag` to spread list arguments, but the code appends each argument as one element. The model follows the code.
- Fixture.FixtureChangesOneMove and Fixture.FixtureChangesMany: the tests count changes against the schedule that `array_to_schedule` makes of the first array. The lemmas count against that array itself, which Converter.ArrayScheduleRoundTrip gives back for distinct events and slots.
- The tests call `capacity_demand_difference`, which is absent from the current tree. The older function is modelled with its own sign, and proved to be the negation of the current one.

## Findings

| source | as written | input that shows it | evidently intended | confidence | as-written member | corrected member |
|---|---|---|---|---|---|---|
| conference_scheduler/validator.py:92 | `is_valid_schedule` calls `is_valid_array` without its `constraints` argument, so extra constraints are ignored | one event scheduled in its only slot, with an extra constraint that always fails | pass `constraints` on, as `schedule_violations` does at line 117-118 | not executed | Validator.IsValidScheduleAsWritten (counterexample: Validator.IsValidScheduleDropsConstraints) | Validator.IsValidSchedule |
