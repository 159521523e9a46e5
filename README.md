# Shape Up planner: a verified model of the year and sprint stores

The Shape Up planner lays out one calendar year as a list of Monday-to-Sunday weeks. Users
mark up to five weeks as vacation and claim runs of six free weeks as "sprints" (six-week
bets). They attach tasks to weeks and move tasks between weeks by drag and drop. The year
view shows the year as sections: one per sprint, plus runs of consecutive unassigned weeks
and runs of consecutive vacation weeks.

This project models, in Dafny:

- the week generator (`YearGenerator`): ISO-style week numbering, each week's Monday and
  Sunday, the 52/53-week rule, and the week ids `YYYY-Wnn`;
- the year store (`Allocation` as functions on a `YearData` value; `YearStore.Store` as a
  class whose methods update its fields): the vacation toggle, tasks, week reordering and
  sprint records;
- the sprint store (`SprintPlan` as functions; `SprintStore` as methods and loops against the
  store): colour choice, the walk that claims six weeks, and creation, update and deletion
  of sprints;
- the year view's grouping and section order (`YearView`);
- the week detail view's selection, navigation, add-task and drop handlers (`WeekDetailView`).

Dates are whole day numbers. `Calendar` gives them the proleptic Gregorian calendar and the
behaviour of the JavaScript `Date` calls the generator uses. That includes `new Date(y, m,
d)` reading years 0..99 as 1900..1999, and `setDate` overflowing into the neighbouring months.
`Text` models `String(n)`, `padStart(2, '0')` and `trim`. `Lists` and `Sorting` model the
array methods the stores call (`findIndex`, `filter`, `splice`, and a stable `sort`).

The central invariant is `Allocation.Valid`. A freshly generated year satisfies it
(`YearGenerator.GenerateYear`). It says:

- week ids are distinct;
- the vacation index lists exactly the flagged weeks, once each, and at most five of them;
- a vacation week belongs to no sprint;
- sprint ids are distinct;
- every week a sprint lists points back to that sprint, and every week with a sprint is
  listed by it.

Every action the store exposes to the views is proved to keep it: toggleVacation, addTask,
updateTask, deleteTask, moveTask, reorderWeeks, createSprint (under a fresh sprint id),
deleteSprint and updateSprint. The four primitives assignWeekToSprint, addSprint,
updateSprintData and removeSprint do not keep it on their own: a sprint and its weeks must
change together, and they keep it only as createSprint, deleteSprint and updateSprint use
them.

## Model

| member | source | states |
|---|---|---|
| Allocation.WeekIndex | src/stores/yearStore.ts:83 | the result is -1 exactly when no week has the id; otherwise that week has the id and no earlier week does |
| Allocation.WeekIndexOf | src/stores/yearStore.ts:83 | with distinct week ids, the lookup of a week's own id finds that week's position |
| Allocation.GetWeek | src/stores/yearStore.ts:61-63 | the result is undefined exactly when no week has the id; otherwise it is the first week of the year with that id (the week at WeekIndex) |
| Allocation.GetWeeksBySprint | src/stores/yearStore.ts:68-70 | a week is returned exactly when it is in the year and belongs to the sprint, in list order and as often as the year holds it |
| Allocation.AvailableWeeks | src/stores/yearStore.ts:42-46 | a week is returned exactly when it is in the year, has a null sprint id and is not vacation, in list order and as often as the year holds it |
| Allocation.SameAllocationValid | src/stores/yearStore.ts:116-200 | an edit that changes only tasks keeps the year consistent |
| Allocation.SetVacationFlag | src/stores/yearStore.ts:86-87 | flipping one week's vacation flag changes which ids are vacation weeks only at that week's id |
| Allocation.FlagKeepsLinks | src/stores/yearStore.ts:86-87 | flipping a vacation flag keeps every sprint-to-week link |
| Allocation.CanAddVacation | src/stores/yearStore.ts:56 | no contract: defined as fewer than MAX_VACATION_WEEKS (five) ids in the vacation index; properties in Allocation.ToggleKeepsVacationIndex, Allocation.ToggleVacationPreservesValid (the index never exceeds five) |
| Allocation.ToggleVacation | src/stores/yearStore.ts:75-111 | no contract: defined as the source's branches: unknown week fails, a vacation week is switched off and its id filtered out, a sprint week or a full index fails, otherwise the week is flagged and its id pushed; properties in Allocation.ToggleVacationPreservesValid, Allocation.ToggleVacationTwice, Allocation.ToggleOffThenOn, Allocation.ToggleOnThenOff |
| Allocation.ToggleVacationPreservesValid | src/stores/yearStore.ts:75-111 | toggleVacation keeps the year consistent; in particular it never exceeds five vacation weeks and never flags a sprint week |
| Allocation.ToggleKeepsLinks | src/stores/yearStore.ts:75-111 | toggleVacation keeps every sprint link |
| Allocation.ToggleKeepsVacationIndex | src/stores/yearStore.ts:75-111 | toggleVacation keeps the vacation index in step with the flags, without duplicates and within the cap |
| Allocation.ToggleVacationTwice | src/stores/yearStore.ts:75-111 | a successful toggle followed by a second one succeeds, and restores the weeks, the sprints and the set of vacation ids |
| Allocation.ToggleOffThenOn | src/stores/yearStore.ts:81-108 | switching a vacation week off and on restores the weeks and moves its id to the end of the index |
| Allocation.ToggleOnThenOff | src/stores/yearStore.ts:81-108 | switching a working week on and off gives back exactly the year it started from |
| Allocation.TotalTasksUpdate | src/stores/yearStore.ts:116-172 | replacing one week changes the total task count by the difference of the two weeks' counts |
| Allocation.TaskIndex | src/stores/yearStore.ts:145-147 | the result is -1 exactly when no task has the id; otherwise that task has the id and no earlier one does |
| Allocation.PatchTask | src/stores/yearStore.ts:149 | each field of the result comes from the patch when the patch sets it, and otherwise from the old task |
| Allocation.AddTask | src/stores/yearStore.ts:116-135 | no contract: defined as appending a new, uncompleted task to the first week with the id; properties in Allocation.AddTaskAppends, Allocation.AddTaskThenDeleteTask |
| Allocation.AddTaskAppends | src/stores/yearStore.ts:116-135 | the returned task is `{id, title, completed: false, weekId}`; it is appended to the found week only; the total number of tasks grows by one exactly when the week exists; an unknown week leaves the year as it was |
| Allocation.AddTaskThenDeleteTask | src/stores/yearStore.ts:116-172 | adding a task under an id the week does not hold and then deleting that id gives back the year |
| Allocation.UpdateTask | src/stores/yearStore.ts:140-155 | no contract: defined as merging the patch into the first task with the id in the first week with the id; properties in Allocation.UpdateTaskKeepsAllocation, Allocation.UpdateTaskIdempotent |
| Allocation.UpdateTaskKeepsAllocation | src/stores/yearStore.ts:140-155 | updateTask touches no week id, flag or owner, no sprint and no vacation id, and keeps the number of tasks |
| Allocation.UpdateTaskIdempotent | src/stores/yearStore.ts:140-155 | applying a second time a patch that leaves a task's id alone changes nothing |
| Allocation.PatchTwice | src/stores/yearStore.ts:145-149 | patching the first task with the id twice is patching it once |
| Allocation.DeleteTask | src/stores/yearStore.ts:160-172 | no contract: defined as filtering out the tasks with the id in the first week with the id; properties in Allocation.DeleteTaskRemoves |
| Allocation.DeleteTaskRemoves | src/stores/yearStore.ts:160-172 | afterwards the week holds exactly its old tasks with another id, in their old order and each as often as before; no other week changes; the total never grows |
| Allocation.MoveTask | src/stores/yearStore.ts:177-200 | no contract: defined as splicing the task out of the source week and appending it, with the new week id, to the destination week; properties in Allocation.MoveTaskKeepsAllocation, Allocation.MoveTaskMoves |
| Allocation.MoveTaskKeepsAllocation | src/stores/yearStore.ts:177-200 | moveTask changes only tasks and keeps their number; a missing source week, destination week or task leaves the year unchanged |
| Allocation.MovedTaskKeepsAllocation | src/stores/yearStore.ts:192-196 | taking a task out of one week and appending it to another keeps the allocation and the number of tasks |
| Allocation.NewTasks | src/stores/yearStore.ts:116-200 | giving one week a new task list keeps the allocation and changes the total by the difference in length |
| Allocation.NewTasksSameIndex | src/stores/yearStore.ts:116-200 | giving one week a new task list leaves every week id where it was found |
| Allocation.MoveTaskMoves | src/stores/yearStore.ts:177-200 | the moved task, with its week id set to the destination, ends the destination's list; the source loses exactly that task (its first task with the id) and keeps the others in their order; a same-week move sends it to the end; no other week changes |
| Allocation.ShiftOrder | src/stores/yearStore.ts:209-223 | the moved week takes order `to`; weeks outside the span between `from` and `to` keep their order; the others shift one step toward the vacated slot |
| Allocation.Renumbered | src/stores/yearStore.ts:209-223 | every week keeps its fields except its order, which is renumbered |
| Allocation.ShiftOrderInjective | src/stores/yearStore.ts:209-223 | with all values in 1..N the renumbering stays in 1..N and sends different orders to different orders |
| Allocation.ShiftOrderInRange | src/stores/yearStore.ts:209-223 | with all values in 1..N the renumbered order stays in 1..N |
| Allocation.RenumberedIsPermutation | src/stores/yearStore.ts:209-223 | renumbering orders that are a permutation of 1..N gives a permutation of 1..N |
| Allocation.ReorderWeeks | src/stores/yearStore.ts:205-230 | no contract: defined as renumbering every week and sorting by order; properties in Allocation.ReorderWeeksPermutes, Allocation.ReorderWeeksPlacesMoved, Allocation.ReorderWeeksSamePlace, Allocation.ReorderWeeksPreservesValid |
| Allocation.ReorderWeeksPermutes | src/stores/yearStore.ts:205-230 | reorderWeeks keeps every (renumbered) week and leaves the list numbered 1..N in order |
| Allocation.ReorderWeeksPlacesMoved | src/stores/yearStore.ts:205-230 | the week that had order `from` ends at position `to` with order `to` |
| Allocation.ReorderWeeksSamePlace | src/stores/yearStore.ts:205-230 | moving a week onto its own place in an ordered list changes nothing |
| Allocation.ReorderWeeksPreservesValid | src/stores/yearStore.ts:205-230 | reorderWeeks keeps the year consistent, whatever the two orders |
| Allocation.PermutedWeeksValid | src/stores/yearStore.ts:226 | rearranging the weeks of a consistent year, as the sort does, keeps it consistent |
| Allocation.PermutedIdsDistinct | src/stores/yearStore.ts:226 | rearranging weeks with distinct ids keeps the ids distinct |
| Allocation.AssignWeekToSprint | src/stores/yearStore.ts:235-244 | only the first week with the id gets the new sprint id; sprints, vacation ids and all other weeks stay |
| Allocation.AddSprint | src/stores/yearStore.ts:249-256 | the sprint is appended after the old sprints; weeks and vacation ids stay |
| Allocation.SprintIndex | src/stores/yearStore.ts:264 | the result is -1 exactly when no sprint has the id; otherwise that sprint has the id and no earlier one does |
| Allocation.PatchSprint | src/stores/yearStore.ts:266 | each of the seven fields (id, title, goal pitch, colour, week list, year, order) comes from the patch when it sets it, and otherwise from the sprint |
| Allocation.UpdateSprintData | src/stores/yearStore.ts:261-271 | no contract: defined as merging the patch into the first sprint with the id; properties in Allocation.UpdateSprintDataPatchesOne, Allocation.UpdateSprintDataIdempotent |
| Allocation.UpdateSprintDataPatchesOne | src/stores/yearStore.ts:261-271 | only the first sprint with the id is patched, in place; weeks and vacation ids stay; an unknown id changes nothing |
| Allocation.UpdateSprintDataIdempotent | src/stores/yearStore.ts:261-271 | applying a patch that keeps the sprint's id a second time changes nothing |
| Allocation.RemoveSprint | src/stores/yearStore.ts:276-286 | no contract: defined as splicing out the first sprint with the id; properties in Allocation.RemoveSprintKeepsWeeks |
| Allocation.RemoveSprintKeepsWeeks | src/stores/yearStore.ts:276-286 | weeks and vacation ids stay; the first sprint with the id is removed and the others keep their order; with distinct ids, the remaining sprints are exactly the old ones with another id |
| YearStore.Store.constructor | src/stores/yearStore.ts:9-19 | the store holds the given year for the given current year |
| YearStore.Store.ToggleVacation | src/stores/yearStore.ts:75-111 | the new state and the result are those of toggleVacation on the old state, and consistency is kept |
| YearStore.Store.AddTask | src/stores/yearStore.ts:116-135 | the new state and the returned task are those of addTask, and consistency is kept |
| YearStore.Store.UpdateTask | src/stores/yearStore.ts:140-155 | the new state is that of updateTask, and consistency is kept |
| YearStore.Store.DeleteTask | src/stores/yearStore.ts:160-172 | the new state is that of deleteTask, and consistency is kept |
| YearStore.Store.MoveTask | src/stores/yearStore.ts:177-200 | the new state is that of moveTask, and consistency is kept |
| YearStore.Store.ReorderWeeks | src/stores/yearStore.ts:205-230 | the renumbering loop followed by the sort gives the state of reorderWeeks, and consistency is kept |
| YearStore.Store.AssignWeekToSprint | src/stores/yearStore.ts:235-244 | the new state is that of assignWeekToSprint |
| YearStore.Store.AddSprint | src/stores/yearStore.ts:249-256 | the new state is that of addSprint |
| YearStore.Store.UpdateSprintData | src/stores/yearStore.ts:261-271 | the new state is that of updateSprintData |
| YearStore.Store.RemoveSprint | src/stores/yearStore.ts:276-286 | the new state is that of removeSprint |
| SprintPlan.GetSprint | src/stores/sprintStore.ts:13-15 | the result is undefined exactly when no sprint has the id; otherwise it is the first sprint with that id (the sprint at SprintIndex) |
| SprintPlan.UsedColors | src/stores/sprintStore.ts:21 | one colour per sprint, position by position |
| SprintPlan.GetNextColor | src/stores/sprintStore.ts:20-24 | the colour is from the palette; when all eight are used it is the palette entry at the sprint count modulo eight |
| SprintPlan.NextColorIsFirstFree | src/stores/sprintStore.ts:20-24 | when a palette colour is free, the chosen colour is free and no colour before it in the palette is free |
| SprintPlan.PaletteIsDistinct | src/types/index.ts:51-60 | the palette holds eight different colours |
| SprintPlan.FewSprintsGetFreshColor | src/stores/sprintStore.ts:20-24 | with fewer than eight sprints a new sprint never repeats a colour |
| SprintPlan.Claim | src/stores/sprintStore.ts:38-53 | the walk claims at most six increasing positions from the start, all of them free, with no vacation week up to the last one |
| SprintPlan.ClaimStep | src/stores/sprintStore.ts:38-53 | one turn of the loop: stop when six are found or at the end; take a free week; stop at a vacation week; skip a sprint week |
| SprintPlan.ClaimSkipsNoFreeWeek | src/stores/sprintStore.ts:38-53 | every free week the walk passes before a vacation week is claimed, up to the last claimed week, or all the way when fewer than six were found |
| SprintPlan.ClaimFreeHere | src/stores/sprintStore.ts:38-53 | a free start week is always claimed |
| SprintPlan.ClaimTakenStep | src/stores/sprintStore.ts:48-51 | past a week another sprint holds, the walk goes on unchanged |
| SprintPlan.ClaimFreeStep | src/stores/sprintStore.ts:43-45 | past a claimed free week, the walk reaches the same later weeks from one position on |
| SprintPlan.ClaimedIsReachable | src/stores/sprintStore.ts:38-53 | a claimed week lies at or after the start, is free, and no vacation week precedes it on the walk |
| SprintPlan.ClaimedIds | src/stores/sprintStore.ts:38-53 | no contract: defined as the ids of the weeks the walk from the start position claims; properties in SprintPlan.ClaimedIdsMatchPositions, SprintPlan.ClaimedIdsReachable, SprintPlan.ClaimedIdsInListOrder, SprintPlan.CreateSprintListsClaimed |
| SprintPlan.IdsAt | src/stores/sprintStore.ts:44 | the collected ids are those of the weeks at the claimed positions, in order |
| SprintPlan.AssignAll | src/stores/sprintStore.ts:72-74 | no contract: defined as assignWeekToSprint on each listed id in turn (also the release loop at sprintStore.ts:94-96); properties in SprintPlan.AssignAllStep, SprintPlan.AssignAllEffect, SprintPlan.AssignFirstThenRest |
| SprintPlan.AssignAllStep | src/stores/sprintStore.ts:72-74 | assigning no ids changes nothing; a list assigns its first id, then the rest |
| SprintPlan.AssignAllEffect | src/stores/sprintStore.ts:72-74 | with distinct week ids, exactly the listed weeks get the sprint id; sprints and vacation ids stay |
| SprintPlan.AssignFirstThenRest | src/stores/sprintStore.ts:72-74 | assigning the first id and then the others assigns every listed id |
| SprintPlan.FirstWeekOrder | src/stores/sprintStore.ts:105-111 | no contract: defined as the order of the sprint's first listed week, 0 when it has none or the week is unknown; properties in SprintPlan.SortedSprints |
| SprintPlan.SortedSprints | src/stores/sprintStore.ts:105-111 | a permutation of the sprints, ordered by the order of each sprint's first week |
| SprintPlan.IdsAtPositions | src/stores/sprintStore.ts:38-53 | with distinct week ids, ids collected at increasing positions are distinct, and each leads back to its position |
| SprintPlan.IdsAtMembership | src/stores/sprintStore.ts:38-53 | a week's id is collected exactly when its position is claimed |
| SprintPlan.ClaimedIdsMatchPositions | src/stores/sprintStore.ts:38-53 | the claimed ids are distinct and each leads back to its claimed position; a week's id is claimed exactly when its position is, and then the week was free and reachable |
| SprintPlan.ClaimedIdsReachable | src/stores/sprintStore.ts:38-53 | every week whose id was claimed is free, at or after the start, and reached without crossing a vacation week |
| SprintPlan.NewSprint | src/stores/sprintStore.ts:58-66 | no contract: defined as the sprint literal: the new id, the title or "Sprint n+1", an empty pitch, the next colour, the claimed ids, the store's year and the old sprint count as order; properties in SprintPlan.CreateSprintRecord |
| SprintPlan.CreateSprint | src/stores/sprintStore.ts:29-77 | no contract: defined as the start-week lookup, the claim walk, the new sprint record and the week assignment; properties in SprintPlan.CreateSprintRecord, SprintPlan.CreateSprintWeeks, SprintPlan.CreateSprintInListOrder, SprintPlan.CreateSprintPreservesValid |
| SprintPlan.CreateSprintRecord | src/stores/sprintStore.ts:29-77 | failure changes nothing, and an unknown start week fails; success appends a sprint with the new id, order = old sprint count, empty pitch, the given title when truthy or "Sprint n+1", the next colour, the store's year and six distinct week ids |
| SprintPlan.CreateSprintWeeks | src/stores/sprintStore.ts:29-77 | on success a week gets the new sprint id exactly when it is listed; each listed week was free and reachable from the start; no other week changes |
| SprintPlan.CreateSprintInListOrder | src/stores/sprintStore.ts:38-66 | the new sprint lists its weeks in the order they appear in the year |
| SprintPlan.CreateSprintListsClaimed | src/stores/sprintStore.ts:38-66 | createSprint succeeds exactly when the start week is known and the walk from it collects six ids, and the new sprint then lists exactly those ids |
| SprintPlan.ClaimedIdsInListOrder | src/stores/sprintStore.ts:38-53 | the walk collects ids of existing weeks in list order |
| SprintPlan.CreateSprintPreservesValid | src/stores/sprintStore.ts:29-77 | createSprint with a fresh id keeps the year consistent |
| SprintPlan.CreateSprintClaims | src/stores/sprintStore.ts:29-77 | a successful createSprint appends the sprint and sets its id on exactly its free weeks |
| SprintPlan.ClaimKeepsValid | src/stores/sprintStore.ts:56-74 | claiming free weeks for a new sprint under a fresh id keeps the year consistent |
| SprintPlan.ClaimKeepsVacationIndex | src/stores/sprintStore.ts:56-74 | a claim keeps the week ids and the vacation index |
| SprintPlan.ClaimKeepsSprintIds | src/stores/sprintStore.ts:56-74 | a claim keeps the sprint ids distinct |
| SprintPlan.ClaimKeepsForwardLinks | src/stores/sprintStore.ts:56-74 | after a claim, every listed week points back to its sprint |
| SprintPlan.ClaimKeepsBackLinks | src/stores/sprintStore.ts:56-74 | after a claim, every week with a sprint is listed by that sprint |
| SprintPlan.DeleteSprint | src/stores/sprintStore.ts:89-100 | no contract: defined as releasing the sprint's weeks and then removing the sprint; properties in SprintPlan.DeleteSprintEffect, SprintPlan.DeleteSprintPreservesValid |
| SprintPlan.DeleteSprintEffect | src/stores/sprintStore.ts:89-100 | an unknown id changes nothing; otherwise the sprint's weeks lose their sprint id, no other week changes, and the sprint is removed |
| SprintPlan.DeleteSprintPreservesValid | src/stores/sprintStore.ts:89-100 | deleteSprint keeps the year consistent |
| SprintPlan.ReleaseKeepsValid | src/stores/sprintStore.ts:89-100 | removing a sprint and releasing its weeks keeps the year consistent |
| SprintPlan.ReleaseKeepsVacationIndex | src/stores/sprintStore.ts:89-100 | a release keeps the week ids and the vacation index |
| SprintPlan.ReleaseKeepsSprintIds | src/stores/sprintStore.ts:89-100 | a release keeps the sprint ids distinct |
| SprintPlan.ReleaseKeepsForwardLinks | src/stores/sprintStore.ts:89-100 | after a release, every remaining sprint's weeks still point back to it |
| SprintPlan.ReleaseKeepsBackLinks | src/stores/sprintStore.ts:89-100 | after a release, every week that still has a sprint is listed by it |
| SprintPlan.OwnerUnique | src/stores/sprintStore.ts:89-100 | with distinct week ids a week has at most one owner |
| SprintPlan.OtherSprintsWeeksStay | src/stores/sprintStore.ts:89-100 | in a consistent year two sprints never list the same week |
| SprintPlan.CreateThenDeleteSprint | src/stores/sprintStore.ts:29-100 | creating a sprint under a fresh id and deleting it gives back the year |
| SprintPlan.ReleaseUndoesClaim | src/stores/sprintStore.ts:29-100 | deleting a sprint that claimed free weeks restores the year it was added to |
| SprintPlan.UpdateSprint | src/stores/sprintStore.ts:82-84 | no contract: defined as updateSprintData with the title, pitch, colour and order of the settings; properties in SprintPlan.UpdateSprintPreservesValid |
| SprintPlan.UpdateSprintPreservesValid | src/stores/sprintStore.ts:82-84 | updateSprint changes no week, no vacation id, no sprint id and no week list, so it keeps the year consistent |
| SprintPlan.SameLinksValid | src/stores/sprintStore.ts:82-84 | a year with the same weeks, vacation ids, sprint ids and week lists as a consistent year is consistent |
| SprintStore.ClaimedFromStep | src/stores/sprintStore.ts:38-53 | one turn of the loop in terms of the collected ids |
| SprintStore.ClaimedIdsFrom | src/stores/sprintStore.ts:38-53 | the ids collected by the whole walk are those createSprint claims |
| SprintStore.ClaimWeeks | src/stores/sprintStore.ts:38-53 | the `while` loop collects exactly the ids of the claim walk from the start week |
| SprintStore.IdsAtCons | src/stores/sprintStore.ts:44 | the ids at a position list starting with `p` start with the id at `p` |
| SprintStore.CreateSprint | src/stores/sprintStore.ts:29-77 | the store ends in createSprint's new state and returns its sprint; with a fresh id, consistency is kept |
| SprintStore.DeleteSprint | src/stores/sprintStore.ts:89-100 | the store ends in deleteSprint's new state, and consistency is kept |
| SprintStore.UpdateSprint | src/stores/sprintStore.ts:82-84 | the store ends in updateSprint's new state, and consistency is kept |
| YearGenerator.CeilDiv | src/services/YearGenerator.ts:15 | the result is the least integer q with a <= b*q, i.e. `Math.ceil(a / b)` |
| YearGenerator.MondayIndex | src/services/YearGenerator.ts:10 | `(getDay() + 6) % 7` counts the weekday from Monday = 0 |
| YearGenerator.ThursdayOf | src/services/YearGenerator.ts:8-11 | the Thursday of the date's Monday-start week lies within three days of it |
| YearGenerator.SameWeekSameThursday | src/services/YearGenerator.ts:8-11 | the seven days Monday..Sunday share their Thursday |
| YearGenerator.ThursdayShift | src/services/YearGenerator.ts:8-11 | the setDate step lands on the Thursday of the date's week |
| YearGenerator.GetISOWeekNumber | src/services/YearGenerator.ts:7-16 | no contract: defined as the Thursday of the date's week, counted in whole weeks (rounded up) from 4 January of its year, plus one; properties in YearGenerator.GetISOWeekNumberUsesThursday, YearGenerator.ISOWeekNumberConstantOnWeek, YearGenerator.ISOWeekNumberPositive, YearGenerator.GetISOWeekNumberOffByOne |
| YearGenerator.GetISOWeekNumberUsesThursday | src/services/YearGenerator.ts:7-16 | the week number depends on the date only through its Thursday |
| YearGenerator.ISOWeekNumberConstantOnWeek | src/services/YearGenerator.ts:7-16 | all days of one Monday-start week get the same number |
| YearGenerator.ISOWeekNumberPositive | src/services/YearGenerator.ts:7-16 | the number is at least 1, outside the years 0..99 that `new Date` misreads |
| YearGenerator.GetWeekStart | src/services/YearGenerator.ts:21-32 | no contract: defined as the Monday on or before 4 January, moved by whole weeks; properties in YearGenerator.MondayShift, YearGenerator.WeekStartFormula, YearGenerator.WeekStartIsMonday, YearGenerator.WeekStartsSevenApart |
| YearGenerator.MondayShift | src/services/YearGenerator.ts:21-32 | the two setDate steps of getWeekStart land on the Monday on or before the anchor, moved by whole weeks |
| YearGenerator.WeekStartFormula | src/services/YearGenerator.ts:21-32 | week n starts 7(n-1) days after week 1's Monday |
| YearGenerator.FirstMondayBounds | src/services/YearGenerator.ts:23-27 | week 1's Monday is a Monday from 29 December of the year before to 4 January |
| YearGenerator.WeekStartsSevenApart | src/services/YearGenerator.ts:21-32 | consecutive weeks start seven days apart |
| YearGenerator.WeekStartIsMonday | src/services/YearGenerator.ts:21-32 | every week starts on a Monday |
| YearGenerator.WeekId | src/services/YearGenerator.ts:53 | no contract: defined as the year, `-W` and the zero-padded week number; properties in YearGenerator.WeekIdInjective |
| YearGenerator.WeekIdInjective | src/services/YearGenerator.ts:47-63 | week ids of one year differ for week numbers 0..99 |
| YearGenerator.GenerateWeek | src/services/YearGenerator.ts:47-63 | no contract: defined as a week with that id, number and year, its start and the day six later as dates, no sprint, no vacation, no tasks, and its number as its order; properties in YearGenerator.GeneratedWeekDates, YearGenerator.GenerateYear |
| YearGenerator.GeneratedWeekDates | src/services/YearGenerator.ts:47-63 | a generated week starts on the Monday 7(n-1) days after week 1's Monday and ends six days later |
| YearGenerator.GetWeeksInYear | src/services/YearGenerator.ts:69-90 | a year has 52 or 53 weeks |
| YearGenerator.WeekdayAfter | src/services/YearGenerator.ts:69-90 | the weekday k days later is k steps further round the week |
| YearGenerator.DecemberTestRedundant | src/services/YearGenerator.ts:69-90 | in a year of 365 or 366 days the 31 December test only repeats the 1 January test |
| YearGenerator.LeapOfJsYear | src/services/YearGenerator.ts:69-90 | JavaScript's years 1..99 are leap exactly when the written year is |
| YearGenerator.JsYearLeap | src/services/YearGenerator.ts:69-90 | outside year 0, the year `new Date` builds is leap exactly when the written year is |
| YearGenerator.YearSpan | src/services/YearGenerator.ts:69-90 | 31 December is a year length less one day after 1 January |
| YearGenerator.Jan1OfYearZeroIsMonday | src/services/YearGenerator.ts:69-90 | `new Date(0, 0, 1)` is a Monday in a 365-day year |
| YearGenerator.WeeksInYearRule | src/services/YearGenerator.ts:69-90 | a year has 53 weeks exactly when 1 January is a Thursday, or a Wednesday in a leap year |
| YearGenerator.YearsTile | src/services/YearGenerator.ts:99-113 | week 1 of the next year starts right after the last generated week, so the generated years tile the calendar |
| YearGenerator.GenerateYear | src/services/YearGenerator.ts:99-113 | weeks 1..getWeeksInYear in order, each a generated week with no sprint, no vacation and no tasks; distinct ids; no sprints and no vacation ids; the year satisfies Allocation.Valid |
| YearGenerator.GetWeekCount | src/services/YearGenerator.ts:118-120 | a year has 52 or 53 weeks |
| YearGenerator.IsoWeekIdIsContainingWeek | src/services/YearGenerator.ts:7-16 | every date lies in the generated week IsoWeekId names, which is one of its year's weeks |
| YearGenerator.OffByOneArith | src/services/YearGenerator.ts:13-15 | getISOWeekNumber's arithmetic equals the week count from the first Monday, plus one when 4 January falls Monday to Wednesday |
| YearGenerator.GetISOWeekNumberOffByOne | src/services/YearGenerator.ts:7-16 | getISOWeekNumber exceeds the containing generated week's number by one exactly when 4 January of the Thursday's year falls Monday to Wednesday |
| YearGenerator.GetWeekNumber | src/services/YearGenerator.ts:125-127 | no contract: defined as getISOWeekNumber; properties in YearGenerator.GetISOWeekNumberOffByOne, YearGenerator.Jan4Of2027Counterexample |
| YearGenerator.Jan4Of2027Counterexample | src/services/YearGenerator.ts:125-127 | getWeekNumber gives 2 for 4 January 2027, which lies in week 1 |
| YearGenerator.GetWeekId | src/services/YearGenerator.ts:132-136 | no contract: defined as the calendar year, `-W` and the zero-padded getWeekNumber; properties in YearGenerator.Dec31Of2024Counterexample |
| YearGenerator.Dec31Of2024Counterexample | src/services/YearGenerator.ts:132-136 | getWeekId names 2024-W01 for 31 December 2024, which lies in week 1 of 2025 |
| Calendar.NewDate | src/services/YearGenerator.ts:13 | no contract: defined as the day number of the date, with the years 0..99 read as 1900..1999; properties in Calendar.CivilOfDayNumber, YearGenerator.YearSpan, YearGenerator.Jan1OfYearZeroIsMonday |
| Calendar.GetDay | src/services/YearGenerator.ts:10 | no contract: defined as the weekday of the day number, 0 = Sunday; properties in YearGenerator.MondayIndex, YearGenerator.WeekdayAfter |
| Calendar.IsLeapYear | src/services/YearGenerator.ts:75 | no contract: defined as the Gregorian rule: divisible by 4 and not by 100, or by 400; properties in Calendar.YearStartIsClosedForm, YearGenerator.LeapOfJsYear, YearGenerator.JsYearLeap, YearGenerator.WeeksInYearRule |
| Calendar.YearStartIsClosedForm | src/services/YearGenerator.ts:71 | day numbers of 1 January follow the Gregorian leap-year count |
| Calendar.CivilOf | src/services/YearGenerator.ts:37-42 | `getFullYear`, `getMonth` and `getDate` read a valid calendar date that maps back to the day |
| Calendar.CivilOfDayNumber | src/services/YearGenerator.ts:37-42 | every valid calendar date is read back unchanged |
| Calendar.SetDate | src/services/YearGenerator.ts:11 | no contract: defined as moving the date by the difference to its day of the month; properties in Calendar.SetDateShift |
| Calendar.SetDateShift | src/services/YearGenerator.ts:11 | `setDate(getDate() + k)` moves the date by exactly k days, across month ends |
| Calendar.FormatDate | src/services/YearGenerator.ts:37-42 | no contract: defined as the zero-padded `YYYY-MM-DD` of the date's calendar date; properties in Calendar.FormatCivilInjective, Calendar.FormatDateInjective |
| Calendar.FormatCivilInjective | src/services/YearGenerator.ts:37-42 | distinct calendar dates format as distinct `YYYY-MM-DD` strings |
| Calendar.FormatDateInjective | src/services/YearGenerator.ts:37-42 | distinct days format as distinct strings |
| Text.NatToStringRoundTrip | src/services/YearGenerator.ts:39-40 | reading back `String(n)` gives n |
| Text.IntToString | src/services/YearGenerator.ts:41 | no contract: defined as a minus sign for negative values, then the decimal digits; properties in Text.NatToStringRoundTrip, Text.IntToStringInjective |
| Text.IntToStringInjective | src/services/YearGenerator.ts:41 | distinct integers are written as distinct strings |
| Text.PadStart2 | src/services/YearGenerator.ts:39-40 | `padStart(2, '0')` keeps the string as the suffix and fills up to two characters with zeros in front |
| Text.Pad2Injective | src/services/YearGenerator.ts:39-40 | two-digit zero padding keeps numbers below 100 apart |
| Text.Trim | src/components/WeekDetailView.tsx:57 | no contract: defined as dropping white space from the start and then from the end; properties in Text.TrimProperties |
| Text.TrimProperties | src/components/WeekDetailView.tsx:55-62 | the trimmed title is a slice of the input with no white space at either end, and only white space was dropped |
| Lists.Filter | src/stores/yearStore.ts:165-167 | `filter` keeps exactly the elements that pass, in their order (a subsequence) and each as often as in the input |
| Lists.FilterSnoc | src/stores/yearStore.ts:165-167 | filtering a list with one more element at the end adds that element at the end exactly when it passes |
| Lists.Without | src/stores/yearStore.ts:87 | `filter(id => id !== weekId)` keeps exactly the elements other than the id, in their order (a subsequence) and each as often as in the input |
| Lists.WithoutNoDuplicates | src/stores/yearStore.ts:87 | on a duplicate-free list the filter removes exactly the one id when present and nothing otherwise |
| Lists.WithoutAppended | src/stores/yearStore.ts:87-104 | pushing an absent id and filtering it out gives the list back |
| Lists.RemoveAt | src/stores/yearStore.ts:281 | `splice(k, 1)` removes exactly the element at k and keeps the others in order |
| Lists.PermutationNoDuplicates | src/stores/yearStore.ts:226 | a reordering of a list without duplicates has none |
| Sorting.SortBy | src/stores/yearStore.ts:226 | the sort result is ordered by the key and a permutation of the input |
| Sorting.SortSortedIsIdentity | src/stores/yearStore.ts:226 | sorting an already ordered list leaves it unchanged, as a stable sort does |
| Sorting.SortPermutationKeys | src/stores/yearStore.ts:226 | sorting N elements with keys 1..N numbers them 1..N in order |
| Sorting.SortPermutationPlaces | src/stores/yearStore.ts:226 | the element with key c lands at position c - 1 |
| YearView.Groups | src/components/YearView.tsx:16-40 | no contract: defined as cutting the weeks into runs of consecutive week numbers; properties in YearView.GroupsFlatten, YearView.GroupsAreRuns, YearView.GroupsBreak, YearView.GroupConsecutiveWeeks |
| YearView.GroupsFlatten | src/components/YearView.tsx:16-40 | the groups laid end to end give the weeks back; there are none exactly for no weeks |
| YearView.GroupsAreRuns | src/components/YearView.tsx:16-40 | every group is a non-empty run of consecutive week numbers |
| YearView.GroupsBreak | src/components/YearView.tsx:16-40 | consecutive groups are split where the numbering breaks, so no two could be merged |
| YearView.GroupsStep | src/components/YearView.tsx:20-33 | one turn of the loop: the first week opens a group, a consecutive week extends the current one, any other week starts a new one |
| YearView.GroupConsecutiveWeeks | src/components/YearView.tsx:16-40 | the loop returns the groups whose properties the three lemmas above state |
| YearView.IsUnassigned | src/components/YearView.tsx:44 | no contract: defined as a falsy sprint id and no vacation flag; properties in YearView.UnassignedWeeks, YearView.UnassignedAndVacationSplitFreeWeeks |
| YearView.UnassignedWeeks | src/components/YearView.tsx:43-45 | a week is listed exactly when it is in the year, has no sprint and is not vacation, in list order and as often as the year holds it |
| YearView.VacationWeeks | src/components/YearView.tsx:47-49 | a week is listed exactly when it is in the year and is vacation, in list order and as often as the year holds it |
| YearView.UnassignedAndVacationSplitFreeWeeks | src/components/YearView.tsx:43-49 | no week is in both lists, and every week without a sprint is in one of them |
| YearView.SprintSections | src/components/YearView.tsx:61-96 | one section per sprint, in order |
| YearView.GroupSections | src/components/YearView.tsx:61-96 | one section per group, of the given kind, in order |
| YearView.SectionKey | src/components/YearView.tsx:85-95 | no contract: defined as the week number of the section's first week (a sprint's first listed week, a group's first week), 0 when there is none or it is not in the year; properties in YearView.OrderedSections |
| YearView.Collected | src/components/YearView.tsx:62-82 | no contract: defined as the sections pushed before the sort: the sorted sprints, then the unassigned groups, then the vacation groups (every group, since groups are never empty); properties in YearView.OrderedSections, YearView.CollectedHasEverySprint, YearView.CollectedRuns |
| YearView.OrderedSections | src/components/YearView.tsx:61-96 | the sections are ordered by their first week's number and are a permutation of the sprint, unassigned and vacation sections |
| YearView.CollectedHasEverySprint | src/components/YearView.tsx:61-96 | every sprint of the year gets a section |
| YearView.CollectedRuns | src/components/YearView.tsx:57-96 | every week section holds a non-empty run of consecutive week numbers |
| WeekDetailView.ActiveWeek | src/components/WeekDetailView.tsx:14-17 | a week is shown exactly when the view id is set and names a week; the shown week is the first week with that id |
| WeekDetailView.WeekNavigation | src/components/WeekDetailView.tsx:24-34 | previous and next are the neighbours of the shown week in the list, missing exactly at the ends; nothing without a known week |
| WeekDetailView.NavigationRoundTrip | src/components/WeekDetailView.tsx:24-34 | with distinct non-empty ids, going next then previous (or previous then next) comes back to the shown week |
| WeekDetailView.HandleAddTask | src/components/WeekDetailView.tsx:55-62 | with a shown week and a non-blank input, the trimmed input is added as a task to that week and the input cleared; otherwise nothing changes |
| WeekDetailView.HandleDrop | src/components/WeekDetailView.tsx:77-85 | a task dropped with a source week moves to the shown week; anything else changes nothing; the drag always ends |

## Left out

- Persistence: `saveCurrentYear`, `initializeYear`, `setYear` and the storage service. The
  store is built from a year value (`YearStore.Store.constructor`). Whether the year was
  loaded or generated is not modelled.
- `generateId`, which draws on the clock and on randomness: the new task and sprint ids are
  parameters.
- `getCurrentWeekId` and `getCurrentYear`, which read the clock. The store's current year is a
  constant of the store.
- `isCurrentWeek` and the progress figures of the week detail view. The first reads the
  clock; the second is a floating-point percentage for display.
- Time zones, daylight saving time and the time of day. Dates are whole days. In the source,
  `getISOWeekNumber` divides a millisecond difference by 86400000. On a date that is not at
  midnight (such as `new Date()`), that quotient is fractional before `Math.ceil`. A DST change
  does the same.
- The cooldown flag of a week and the cooldown id list of a year. No modelled operation reads
  or writes them.
- Everything purely presentational: the cards, modals, toasts, colours' CSS classes, and the
  interface store apart from the drag state `handleDrop` ends.
- Solid's reactivity (signals, memos, `produce`). Memos are functions of the year value.
  Stores update their fields in place, and nothing else holds a reference to their lists.
- `vacationCount` has no member of its own: `Allocation.CanAddVacation` reads the length of
  the vacation index directly.
- `Array.prototype.sort` is modelled as a stable insertion sort. The source relies only on
  the comparator, and modern engines sort stably.
- `parseDragData` and the browser's drag events: the parsed drag data is a parameter of
  `WeekDetailView.HandleDrop`.
- In createSprint's loop, the last `else if (week.sprintId !== null)` is always true when it
  is reached. It is modelled as a plain `else`.
- The year view's sort key for a week group reads the group's first week. The source would
  fail on an empty group, but groups are never empty (YearView.CollectedRuns). The model's key
  returns 0 in that case, as it does for a sprint whose first week is unknown.
- SprintPlan.ClaimKeepsValid, SprintPlan.CreateSprintPreservesValid,
  SprintStore.CreateSprint: consistency is proved only when the new sprint id is not already
  a sprint's id. `generateId` makes a clash unlikely, but nothing in the source rules it out.
- YearGenerator.IsoWeekIdIsContainingWeek, YearGenerator.YearsTile: proved for years from 100
  on (and, for YearsTile, for years up to -2). `new Date` reads the years 0..99 as 1900..1999,
  so weeks near those years do not tile.
- YearGenerator.ISOWeekNumberPositive: proved only where the Thursday's year is outside 0..99,
  for the same reason.

## Findings

| source | as written | input that shows it | evidently intended | confidence | as-written member | corrected member |
|---|---|---|---|---|---|---|
| src/services/YearGenerator.ts:7-16 | `1 + Math.ceil((thursday - 4 January) / 7 days)` counts from 4 January instead of from week 1's Monday | 4 January 2027, a Monday: the function gives week 2, but the date lies in generated week 1 of 2027 | the number of the generated week that contains the date | not executed | YearGenerator.GetISOWeekNumberOffByOne, YearGenerator.Jan4Of2027Counterexample | YearGenerator.IsoWeekIdIsContainingWeek |
| src/services/YearGenerator.ts:132-136 | `getWeekId` pairs the date's calendar year with its week number | 31 December 2024, a Tuesday: the id is 2024-W01, but the date lies in generated week 1 of 2025 | the id of the generated week that contains the date, whose year is the Thursday's year | not executed | YearGenerator.Dec31Of2024Counterexample | YearGenerator.IsoWeekIdIsContainingWeek |
