// What the year store's and the sprint store's operations do to the stored
// year (src/stores/yearStore.ts, src/stores/sprintStore.ts), as functions
// from the old `YearData` to the new one, and the invariants they keep.
// The store objects in modules YearStore and SprintStore update their fields
// in place and are proved to end in the states these functions describe.

module Allocation {
  import opened Types
  import opened Text
  import opened Lists
  import opened Sorting

  // ---------------------------------------------------------------------------
  // Id columns of the record lists

  function WeekIds(weeks: seq<Week>): (ids: seq<string>)
    ensures |ids| == |weeks| && forall i :: 0 <= i < |weeks| ==> ids[i] == weeks[i].id
  {
    seq(|weeks|, i requires 0 <= i < |weeks| => weeks[i].id)
  }

  function TaskIds(tasks: seq<Task>): (ids: seq<string>)
    ensures |ids| == |tasks| && forall i :: 0 <= i < |tasks| ==> ids[i] == tasks[i].id
  {
    seq(|tasks|, i requires 0 <= i < |tasks| => tasks[i].id)
  }

  function SprintIds(sprints: seq<Sprint>): (ids: seq<string>)
    ensures |ids| == |sprints| && forall i :: 0 <= i < |sprints| ==> ids[i] == sprints[i].id
  {
    seq(|sprints|, i requires 0 <= i < |sprints| => sprints[i].id)
  }

  /** `weeks.findIndex((w) => w.id === weekId)`. */
  function WeekIndex(weeks: seq<Week>, weekId: string): (i: int)
    ensures -1 <= i < |weeks|
    ensures i == -1 <==> forall k :: 0 <= k < |weeks| ==> weeks[k].id != weekId
    ensures 0 <= i ==> weeks[i].id == weekId && forall k :: 0 <= k < i ==> weeks[k].id != weekId
  {
    var i := IndexOf(WeekIds(weeks), weekId);
    assert i == -1 ==> forall k :: 0 <= k < |weeks| ==> WeekIds(weeks)[k] != weekId;
    assert 0 <= i ==> forall k :: 0 <= k < i ==> WeekIds(weeks)[..i][k] != weekId;
    i
  }

  /** With distinct week ids, WeekIndex finds the only week with the id. */
  lemma WeekIndexOf(weeks: seq<Week>, i: int)
    requires NoDuplicates(WeekIds(weeks)) && 0 <= i < |weeks|
    ensures WeekIndex(weeks, weeks[i].id) == i
  {
    IndexOfNoDuplicates(WeekIds(weeks), i);
  }

  // ---------------------------------------------------------------------------
  // Queries

  /** `getWeek`: the first week with the id, if any. */
  function GetWeek(d: YearData, weekId: string): (r: Option<Week>)
    ensures r.None? <==> forall k :: 0 <= k < |d.weeks| ==> d.weeks[k].id != weekId
    ensures r.Some? ==> r.value.id == weekId && r.value in d.weeks
    ensures r.Some? ==> WeekIndex(d.weeks, weekId) != -1 && r.value == d.weeks[WeekIndex(d.weeks, weekId)]
  {
    var i := WeekIndex(d.weeks, weekId);
    if i == -1 then None else Some(d.weeks[i])
  }

  /** `getWeeksBySprint`: the sprint's weeks, in list order. */
  function GetWeeksBySprint(d: YearData, sprintId: string): (r: seq<Week>)
    ensures forall w :: w in r <==> w in d.weeks && w.sprintId == Some(sprintId)
    ensures forall w :: multiset(r)[w] == if w.sprintId == Some(sprintId) then multiset(d.weeks)[w] else 0
    ensures IsSubsequence(r, d.weeks)
  {
    Filter(d.weeks, (w: Week) => w.sprintId == Some(sprintId))
  }

  /** `availableWeeks`: weeks with a null sprint id that are not vacation, in list order. */
  function AvailableWeeks(d: YearData): (r: seq<Week>)
    ensures forall w :: w in r <==> w in d.weeks && w.sprintId == None && !w.isVacation
    ensures forall w :: multiset(r)[w] == if w.sprintId == None && !w.isVacation then multiset(d.weeks)[w] else 0
    ensures IsSubsequence(r, d.weeks)
  {
    Filter(d.weeks, (w: Week) => w.sprintId == None && !w.isVacation)
  }

  /** `canAddVacation`: fewer than MAX_VACATION_WEEKS ids are listed. */
  predicate CanAddVacation(d: YearData)
  {
    |d.vacationWeekIds| < MAX_VACATION_WEEKS
  }

  // ---------------------------------------------------------------------------
  // Invariants of the stored year

  /** Some week with id `weekId` is flagged vacation. */
  ghost predicate IsVacationWeek(weeks: seq<Week>, weekId: string)
  {
    exists k :: 0 <= k < |weeks| && weeks[k].id == weekId && weeks[k].isVacation
  }

  /** The week with id `weekId` belongs to sprint `sprintId`. */
  ghost predicate OwnedBy(weeks: seq<Week>, weekId: string, sprintId: string)
  {
    exists k :: 0 <= k < |weeks| && weeks[k].id == weekId && weeks[k].sprintId == Some(sprintId)
  }

  /** The vacation index lists exactly the flagged weeks, once each, at most
      MAX_VACATION_WEEKS of them, and no vacation week belongs to a sprint. */
  ghost predicate VacationIndexed(d: YearData)
  {
    && NoDuplicates(d.vacationWeekIds)
    && |d.vacationWeekIds| <= MAX_VACATION_WEEKS
    && (forall id :: id in d.vacationWeekIds <==> IsVacationWeek(d.weeks, id))
    && (forall k :: 0 <= k < |d.weeks| && d.weeks[k].isVacation ==> d.weeks[k].sprintId == None)
  }

  /** Sprint ids are distinct, every week a sprint lists points back to it, and every
      sprint-owned week is listed by its sprint. */
  ghost predicate SprintsLinked(d: YearData)
  {
    && NoDuplicates(SprintIds(d.sprints))
    && (forall s, j :: 0 <= s < |d.sprints| && 0 <= j < |d.sprints[s].weekIds| ==>
          OwnedBy(d.weeks, d.sprints[s].weekIds[j], d.sprints[s].id))
    && (forall k :: 0 <= k < |d.weeks| && d.weeks[k].sprintId.Some? ==>
          ListedBySprint(d.sprints, d.weeks[k].sprintId.value, d.weeks[k].id))
  }

  /** Some sprint with id `sprintId` lists week `weekId`. */
  ghost predicate ListedBySprint(sprints: seq<Sprint>, sprintId: string, weekId: string)
  {
    exists s :: 0 <= s < |sprints| && sprints[s].id == sprintId && weekId in sprints[s].weekIds
  }

  /** The consistency the store's operations are meant to keep. */
  ghost predicate Valid(d: YearData)
  {
    NoDuplicates(WeekIds(d.weeks)) && VacationIndexed(d) && SprintsLinked(d)
  }

  /** Two week lists agree on everything but tasks and order: ids, flags and owners. */
  ghost predicate SameAllocation(a: seq<Week>, b: seq<Week>)
  {
    |a| == |b| &&
    forall k :: 0 <= k < |a| ==>
      a[k].id == b[k].id && a[k].isVacation == b[k].isVacation && a[k].sprintId == b[k].sprintId
  }

  /** Operations that only touch tasks keep the store consistent. */
  lemma SameAllocationValid(d: YearData, e: YearData)
    requires Valid(d) && SameAllocation(d.weeks, e.weeks)
    requires e.sprints == d.sprints && e.vacationWeekIds == d.vacationWeekIds
    ensures Valid(e)
  {
    assert WeekIds(e.weeks) == WeekIds(d.weeks);
    forall id ensures IsVacationWeek(e.weeks, id) == IsVacationWeek(d.weeks, id) {
      if IsVacationWeek(e.weeks, id) {
        var k :| 0 <= k < |e.weeks| && e.weeks[k].id == id && e.weeks[k].isVacation;
        assert d.weeks[k].id == id && d.weeks[k].isVacation;
      }
      if IsVacationWeek(d.weeks, id) {
        var k :| 0 <= k < |d.weeks| && d.weeks[k].id == id && d.weeks[k].isVacation;
        assert e.weeks[k].id == id && e.weeks[k].isVacation;
      }
    }
    forall wid, sid ensures OwnedBy(e.weeks, wid, sid) == OwnedBy(d.weeks, wid, sid) {
      if OwnedBy(e.weeks, wid, sid) {
        var k :| 0 <= k < |e.weeks| && e.weeks[k].id == wid && e.weeks[k].sprintId == Some(sid);
        assert d.weeks[k].id == wid && d.weeks[k].sprintId == Some(sid);
      }
      if OwnedBy(d.weeks, wid, sid) {
        var k :| 0 <= k < |d.weeks| && d.weeks[k].id == wid && d.weeks[k].sprintId == Some(sid);
        assert e.weeks[k].id == wid && e.weeks[k].sprintId == Some(sid);
      }
    }
  }

  // ---------------------------------------------------------------------------
  // toggleVacation

  /** `toggleVacation`: the new year and whether the toggle took effect. */
  function ToggleVacation(d: YearData, weekId: string): (YearData, bool)
  {
    var i := WeekIndex(d.weeks, weekId);
    if i == -1 then (d, false)
    else if d.weeks[i].isVacation then
      (d.(weeks := d.weeks[i := d.weeks[i].(isVacation := false)],
          vacationWeekIds := Without(d.vacationWeekIds, weekId)),
       true)
    else if !CanAddVacation(d) then (d, false)
    else if d.weeks[i].sprintId != None then (d, false)
    else
      (d.(weeks := d.weeks[i := d.weeks[i].(isVacation := true)],
          vacationWeekIds := d.vacationWeekIds + [weekId]),
       true)
  }

  /** Flipping the flag of week `i` changes which ids are vacation weeks only at that id. */
  lemma SetVacationFlag(weeks: seq<Week>, i: int, flag: bool, id: string)
    requires NoDuplicates(WeekIds(weeks)) && 0 <= i < |weeks|
    ensures IsVacationWeek(weeks[i := weeks[i].(isVacation := flag)], id) ==
      if id == weeks[i].id then flag else IsVacationWeek(weeks, id)
  {
    var updated := weeks[i := weeks[i].(isVacation := flag)];
    if id == weeks[i].id {
      if flag {
        assert updated[i].id == id && updated[i].isVacation;
      }
    } else {
      if IsVacationWeek(updated, id) {
        var k :| 0 <= k < |updated| && updated[k].id == id && updated[k].isVacation;
        assert weeks[k].id == id && weeks[k].isVacation;
      }
      if IsVacationWeek(weeks, id) {
        var k :| 0 <= k < |weeks| && weeks[k].id == id && weeks[k].isVacation;
        assert updated[k].id == id && updated[k].isVacation;
      }
    }
  }

  /** Flipping a vacation flag leaves every sprint link as it was. */
  lemma FlagKeepsLinks(d: YearData, i: int, flag: bool)
    requires 0 <= i < |d.weeks| && SprintsLinked(d)
    ensures SprintsLinked(d.(weeks := d.weeks[i := d.weeks[i].(isVacation := flag)]))
  {
    var e := d.(weeks := d.weeks[i := d.weeks[i].(isVacation := flag)]);
    forall wid, sid | OwnedBy(d.weeks, wid, sid) ensures OwnedBy(e.weeks, wid, sid) {
      var k :| 0 <= k < |d.weeks| && d.weeks[k].id == wid && d.weeks[k].sprintId == Some(sid);
      assert e.weeks[k].id == wid && e.weeks[k].sprintId == Some(sid);
    }
  }

  /** toggleVacation keeps the store consistent; in particular the count never exceeds
      MAX_VACATION_WEEKS and a sprint week never becomes vacation. */
  lemma ToggleVacationPreservesValid(d: YearData, weekId: string)
    requires Valid(d)
    ensures Valid(ToggleVacation(d, weekId).0)
  {
    var e := ToggleVacation(d, weekId).0;
    ToggleKeepsLinks(d, weekId);
    ToggleKeepsVacationIndex(d, weekId);
    assert WeekIds(e.weeks) == WeekIds(d.weeks);
  }

  /** toggleVacation changes no sprint and no owner, so every sprint link survives. */
  lemma ToggleKeepsLinks(d: YearData, weekId: string)
    requires SprintsLinked(d)
    ensures SprintsLinked(ToggleVacation(d, weekId).0)
  {
    var i := WeekIndex(d.weeks, weekId);
    if i != -1 {
      FlagKeepsLinks(d, i, !d.weeks[i].isVacation);
    }
  }

  /** toggleVacation keeps the vacation index in step with the flags, within the cap, and
      never flags a week that belongs to a sprint. */
  lemma ToggleKeepsVacationIndex(d: YearData, weekId: string)
    requires NoDuplicates(WeekIds(d.weeks)) && VacationIndexed(d)
    ensures VacationIndexed(ToggleVacation(d, weekId).0)
  {
    var i := WeekIndex(d.weeks, weekId);
    if i != -1 {
      var flag := !d.weeks[i].isVacation;
      var e := ToggleVacation(d, weekId).0;
      if e != d {
        SetVacationFlag(d.weeks, i, flag, weekId);
        if flag {
          assert weekId !in d.vacationWeekIds;
          assert e.vacationWeekIds == d.vacationWeekIds + [weekId];
        } else {
          WithoutNoDuplicates(d.vacationWeekIds, weekId);
        }
        forall id ensures id in e.vacationWeekIds <==> IsVacationWeek(e.weeks, id) {
          SetVacationFlag(d.weeks, i, flag, id);
        }
      }
    }
  }

  /** A successful toggle undone by a second toggle restores the weeks and the vacation index
      as a set; switching a week off and on again may move its id to the end of the index. */
  lemma ToggleVacationTwice(d: YearData, weekId: string)
    requires Valid(d) && ToggleVacation(d, weekId).1
    ensures var (e, _) := ToggleVacation(d, weekId);
      var (f, ok) := ToggleVacation(e, weekId);
      && ok
      && f.weeks == d.weeks && f.sprints == d.sprints && f.year == d.year
      && (forall id :: id in f.vacationWeekIds <==> id in d.vacationWeekIds)
      && |f.vacationWeekIds| == |d.vacationWeekIds|
      && (!IsVacationWeek(d.weeks, weekId) ==> f.vacationWeekIds == d.vacationWeekIds)
  {
    var i := WeekIndex(d.weeks, weekId);
    var e := ToggleVacation(d, weekId).0;
    assert WeekIds(e.weeks) == WeekIds(d.weeks);
    assert WeekIndex(e.weeks, weekId) == i;
    if d.weeks[i].isVacation {
      assert weekId in d.vacationWeekIds;
      hide Valid, IsVacationWeek;
      ToggleOffThenOn(d, weekId, i);
    } else {
      assert weekId !in d.vacationWeekIds;
      hide Valid, IsVacationWeek;
      ToggleOnThenOff(d, weekId, i);
    }
  }

  /** Switching a vacation week off and on again: the flags come back and the id moves to the
      end of the index. */
  lemma ToggleOffThenOn(d: YearData, weekId: string, i: int)
    requires 0 <= i < |d.weeks| && WeekIndex(d.weeks, weekId) == i
    requires d.weeks[i].isVacation && d.weeks[i].sprintId == None
    requires NoDuplicates(d.vacationWeekIds) && |d.vacationWeekIds| <= MAX_VACATION_WEEKS
    requires weekId in d.vacationWeekIds
    requires WeekIndex(ToggleVacation(d, weekId).0.weeks, weekId) == i
    ensures var (e, _) := ToggleVacation(d, weekId);
      var (f, ok) := ToggleVacation(e, weekId);
      && ok && f.weeks == d.weeks && f.sprints == d.sprints && f.year == d.year
      && f.vacationWeekIds == Without(d.vacationWeekIds, weekId) + [weekId]
      && |f.vacationWeekIds| == |d.vacationWeekIds|
  {
    var e := ToggleVacation(d, weekId).0;
    WithoutNoDuplicates(d.vacationWeekIds, weekId);
    assert e.weeks[i := e.weeks[i].(isVacation := true)] == d.weeks;
  }

  /** Switching a working week on and off again gives the year back. */
  lemma ToggleOnThenOff(d: YearData, weekId: string, i: int)
    requires 0 <= i < |d.weeks| && WeekIndex(d.weeks, weekId) == i
    requires !d.weeks[i].isVacation && weekId !in d.vacationWeekIds
    requires ToggleVacation(d, weekId).1
    requires WeekIndex(ToggleVacation(d, weekId).0.weeks, weekId) == i
    ensures var (e, _) := ToggleVacation(d, weekId);
      var (f, ok) := ToggleVacation(e, weekId);
      ok && f == d
  {
    var e := ToggleVacation(d, weekId).0;
    WithoutAppended(d.vacationWeekIds, weekId);
    assert e.weeks[i := e.weeks[i].(isVacation := false)] == d.weeks;
  }

  // ---------------------------------------------------------------------------
  // Tasks

  /** Number of tasks over all weeks. */
  function TotalTasks(weeks: seq<Week>): nat
  {
    if weeks == [] then 0 else |weeks[0].tasks| + TotalTasks(weeks[1..])
  }

  /** Replacing one week changes the total by the difference of the two task counts. */
  lemma {:induction false} TotalTasksUpdate(weeks: seq<Week>, i: int, w: Week)
    requires 0 <= i < |weeks|
    ensures TotalTasks(weeks[i := w]) == TotalTasks(weeks) - |weeks[i].tasks| + |w.tasks|
  {
    if i > 0 {
      assert weeks[i := w][1..] == weeks[1..][i - 1 := w];
      TotalTasksUpdate(weeks[1..], i - 1, w);
    }
  }

  /** `tasks.findIndex((t) => t.id === taskId)`. */
  function TaskIndex(tasks: seq<Task>, taskId: string): (j: int)
    ensures -1 <= j < |tasks|
    ensures j == -1 <==> forall k :: 0 <= k < |tasks| ==> tasks[k].id != taskId
    ensures 0 <= j ==> tasks[j].id == taskId && forall k :: 0 <= k < j ==> tasks[k].id != taskId
  {
    var j := IndexOf(TaskIds(tasks), taskId);
    assert j == -1 ==> forall k :: 0 <= k < |tasks| ==> TaskIds(tasks)[k] != taskId;
    assert 0 <= j ==> forall k :: 0 <= k < j ==> TaskIds(tasks)[..j][k] != taskId;
    j
  }

  /** `addTask`: a task `{id, title, completed: false, weekId}` goes to the end of the
      week's list; it is returned whether or not the week exists. */
  function AddTask(d: YearData, weekId: string, title: string, taskId: string): (YearData, Task)
  {
    var task := Task(taskId, title, false, weekId);
    var i := WeekIndex(d.weeks, weekId);
    if i == -1 then (d, task)
    else (d.(weeks := d.weeks[i := d.weeks[i].(tasks := d.weeks[i].tasks + [task])]), task)
  }

  /** A `Partial<Task>`: the fields `Object.assign` copies over. */
  datatype TaskPatch = TaskPatch(
    id: Option<string>, title: Option<string>, completed: Option<bool>, weekId: Option<string>)

  function PatchTask(t: Task, u: TaskPatch): (r: Task)
    ensures r.id == (if u.id.Some? then u.id.value else t.id)
    ensures r.title == (if u.title.Some? then u.title.value else t.title)
    ensures r.completed == (if u.completed.Some? then u.completed.value else t.completed)
    ensures r.weekId == (if u.weekId.Some? then u.weekId.value else t.weekId)
  {
    Task(
      if u.id.Some? then u.id.value else t.id,
      if u.title.Some? then u.title.value else t.title,
      if u.completed.Some? then u.completed.value else t.completed,
      if u.weekId.Some? then u.weekId.value else t.weekId)
  }

  /** `updateTask`: merge the patch into the first task with the id in the first week with
      the id. */
  function UpdateTask(d: YearData, weekId: string, taskId: string, u: TaskPatch): YearData
  {
    var i := WeekIndex(d.weeks, weekId);
    if i == -1 then d
    else
      var tasks := d.weeks[i].tasks;
      var j := TaskIndex(tasks, taskId);
      if j == -1 then d
      else d.(weeks := d.weeks[i := d.weeks[i].(tasks := tasks[j := PatchTask(tasks[j], u)])])
  }

  /** The test `(t) => t.id !== taskId`. */
  function IdIsNot(taskId: string): Task -> bool
  {
    (t: Task) => t.id != taskId
  }

  /** `deleteTask`: drop every task with the id from the first week with the id. */
  function DeleteTask(d: YearData, weekId: string, taskId: string): YearData
  {
    var i := WeekIndex(d.weeks, weekId);
    if i == -1 then d
    else d.(weeks := d.weeks[i := d.weeks[i].(tasks := Filter(d.weeks[i].tasks, IdIsNot(taskId)))])
  }

  /** `moveTask`: take that task out of the source week, set its week id and append it to the
      destination week (both looked up before the removal). */
  function MoveTask(d: YearData, taskId: string, fromWeekId: string, toWeekId: string): YearData
  {
    var fi := WeekIndex(d.weeks, fromWeekId);
    var ti := WeekIndex(d.weeks, toWeekId);
    if fi == -1 || ti == -1 then d
    else
      var j := TaskIndex(d.weeks[fi].tasks, taskId);
      if j == -1 then d
      else
        var task := d.weeks[fi].tasks[j];
        var removed := d.weeks[fi := d.weeks[fi].(tasks := RemoveAt(d.weeks[fi].tasks, j))];
        d.(weeks := removed[ti := removed[ti].(tasks := removed[ti].tasks + [task.(weekId := toWeekId)])])
  }

  /** addTask appends one task to the found week and touches nothing else; an unknown week
      leaves the year as it was. */
  lemma AddTaskAppends(d: YearData, weekId: string, title: string, taskId: string)
    ensures var (e, task) := AddTask(d, weekId, title, taskId);
      && task == Task(taskId, title, false, weekId)
      && e.sprints == d.sprints && e.vacationWeekIds == d.vacationWeekIds && e.year == d.year
      && SameAllocation(d.weeks, e.weeks)
      && TotalTasks(e.weeks) == TotalTasks(d.weeks) + (if GetWeek(d, weekId).Some? then 1 else 0)
      && (GetWeek(d, weekId).None? ==> e == d)
      && forall k :: 0 <= k < |d.weeks| ==>
           e.weeks[k] == (if k == WeekIndex(d.weeks, weekId)
                          then d.weeks[k].(tasks := d.weeks[k].tasks + [task])
                          else d.weeks[k])
  {
    var i := WeekIndex(d.weeks, weekId);
    if i != -1 {
      var task := Task(taskId, title, false, weekId);
      NewTasks(d.weeks, i, d.weeks[i].tasks + [task]);
    }
  }

  /** Adding a task under an id the week does not yet hold and then deleting that id gives
      the year back. */
  lemma AddTaskThenDeleteTask(d: YearData, weekId: string, title: string, taskId: string)
    requires forall w :: w in d.weeks && w.id == weekId ==> forall t :: t in w.tasks ==> t.id != taskId
    ensures DeleteTask(AddTask(d, weekId, title, taskId).0, weekId, taskId) == d
  {
    hide Filter;
    var i := WeekIndex(d.weeks, weekId);
    if i != -1 {
      var (e, task) := AddTask(d, weekId, title, taskId);
      var tasks := d.weeks[i].tasks;
      NewTasksSameIndex(d.weeks, i, tasks + [task], weekId);
      assert d.weeks[i] in d.weeks;
      forall k | 0 <= k < |tasks| ensures IdIsNot(taskId)(tasks[k]) {
        assert tasks[k] in tasks;
      }
      FilterAppendRejected(tasks, task, IdIsNot(taskId));
      assert e.weeks[i := e.weeks[i].(tasks := tasks)] == d.weeks;
    }
  }

  /** updateTask changes at most one task of one week and keeps the number of tasks. */
  lemma UpdateTaskKeepsAllocation(d: YearData, weekId: string, taskId: string, u: TaskPatch)
    ensures var e := UpdateTask(d, weekId, taskId, u);
      && SameAllocation(d.weeks, e.weeks)
      && e.sprints == d.sprints && e.vacationWeekIds == d.vacationWeekIds
      && TotalTasks(e.weeks) == TotalTasks(d.weeks)
  {
    var i := WeekIndex(d.weeks, weekId);
    if i != -1 {
      var tasks := d.weeks[i].tasks;
      var j := TaskIndex(tasks, taskId);
      if j != -1 {
        NewTasks(d.weeks, i, tasks[j := PatchTask(tasks[j], u)]);
      }
    }
  }

  /** Applying the same patch twice is the same as applying it once when it keeps that task's
      id. */
  lemma UpdateTaskIdempotent(d: YearData, weekId: string, taskId: string, u: TaskPatch)
    requires u.id.None? || u.id == Some(taskId)
    ensures var e := UpdateTask(d, weekId, taskId, u);
      UpdateTask(e, weekId, taskId, u) == e
  {
    var e := UpdateTask(d, weekId, taskId, u);
    var i := WeekIndex(d.weeks, weekId);
    if i != -1 {
      var tasks := d.weeks[i].tasks;
      var j := TaskIndex(tasks, taskId);
      if j != -1 {
        var patched := tasks[j := PatchTask(tasks[j], u)];
        NewTasksSameIndex(d.weeks, i, patched, weekId);
        PatchTwice(tasks, taskId, u);
        assert e == d.(weeks := d.weeks[i := d.weeks[i].(tasks := patched)]);
        var w := e.weeks[i];
        assert w.(tasks := patched) == w;
      }
    }
  }

  /** Patching the first task with the id twice, without changing its id, patches it once. */
  lemma PatchTwice(tasks: seq<Task>, taskId: string, u: TaskPatch)
    requires u.id.None? || u.id == Some(taskId)
    requires TaskIndex(tasks, taskId) != -1
    ensures var j := TaskIndex(tasks, taskId);
      var patched := tasks[j := PatchTask(tasks[j], u)];
      && TaskIndex(patched, taskId) == j
      && patched[j := PatchTask(patched[j], u)] == patched
  {
    var j := TaskIndex(tasks, taskId);
    var patched := tasks[j := PatchTask(tasks[j], u)];
    assert TaskIds(patched) == TaskIds(tasks);
  }

  /** deleteTask leaves no task with the id in that week, keeps every other task of it in its
      old order and as often as before, touches no other week and never adds tasks. */
  lemma DeleteTaskRemoves(d: YearData, weekId: string, taskId: string)
    ensures var e := DeleteTask(d, weekId, taskId);
      && SameAllocation(d.weeks, e.weeks)
      && e.sprints == d.sprints && e.vacationWeekIds == d.vacationWeekIds
      && TotalTasks(e.weeks) <= TotalTasks(d.weeks)
      && forall k :: 0 <= k < |d.weeks| ==>
           if k == WeekIndex(d.weeks, weekId)
           then && (forall t :: t in e.weeks[k].tasks <==> t in d.weeks[k].tasks && t.id != taskId)
                && (forall t :: multiset(e.weeks[k].tasks)[t] ==
                                  if t.id != taskId then multiset(d.weeks[k].tasks)[t] else 0)
                && IsSubsequence(e.weeks[k].tasks, d.weeks[k].tasks)
           else e.weeks[k] == d.weeks[k]
  {
    var i := WeekIndex(d.weeks, weekId);
    if i != -1 {
      var kept := Filter(d.weeks[i].tasks, IdIsNot(taskId));
      NewTasks(d.weeks, i, kept);
    }
  }

  /** moveTask touches only tasks and keeps their number; with a week or that task missing it
      changes nothing. */
  lemma MoveTaskKeepsAllocation(d: YearData, taskId: string, fromWeekId: string, toWeekId: string)
    ensures var e := MoveTask(d, taskId, fromWeekId, toWeekId);
      var fi := WeekIndex(d.weeks, fromWeekId);
      var ti := WeekIndex(d.weeks, toWeekId);
      && SameAllocation(d.weeks, e.weeks)
      && e.sprints == d.sprints && e.vacationWeekIds == d.vacationWeekIds
      && TotalTasks(e.weeks) == TotalTasks(d.weeks)
      && (fi == -1 || ti == -1 || TaskIndex(d.weeks[fi].tasks, taskId) == -1 ==> e == d)
  {
    var fi := WeekIndex(d.weeks, fromWeekId);
    var ti := WeekIndex(d.weeks, toWeekId);
    if fi != -1 && ti != -1 {
      var j := TaskIndex(d.weeks[fi].tasks, taskId);
      if j != -1 {
        MovedTaskKeepsAllocation(d.weeks, fi, ti, j, toWeekId);
      }
    }
  }

  /** Moving the `j`th task of week `fi` to the end of week `ti` touches only tasks and keeps
      their number. */
  lemma MovedTaskKeepsAllocation(weeks: seq<Week>, fi: int, ti: int, j: int, toWeekId: string)
    requires 0 <= fi < |weeks| && 0 <= ti < |weeks| && 0 <= j < |weeks[fi].tasks|
    ensures var task := weeks[fi].tasks[j];
      var removed := weeks[fi := weeks[fi].(tasks := RemoveAt(weeks[fi].tasks, j))];
      var moved := removed[ti := removed[ti].(tasks := removed[ti].tasks + [task.(weekId := toWeekId)])];
      SameAllocation(weeks, moved) && TotalTasks(moved) == TotalTasks(weeks)
  {
    var task := weeks[fi].tasks[j];
    var removed := weeks[fi := weeks[fi].(tasks := RemoveAt(weeks[fi].tasks, j))];
    var moved := removed[ti := removed[ti].(tasks := removed[ti].tasks + [task.(weekId := toWeekId)])];
    hide RemoveAt;
    NewTasks(weeks, fi, RemoveAt(weeks[fi].tasks, j));
    NewTasks(removed, ti, removed[ti].tasks + [task.(weekId := toWeekId)]);
    hide SameAllocation, TotalTasks;
    SameAllocationTrans(weeks, removed, moved);
  }

  /** Giving one week a new task list changes nothing else about the allocation, and changes
      the total by the difference in length. */
  lemma NewTasks(weeks: seq<Week>, i: int, tasks: seq<Task>)
    requires 0 <= i < |weeks|
    ensures SameAllocation(weeks, weeks[i := weeks[i].(tasks := tasks)])
    ensures TotalTasks(weeks[i := weeks[i].(tasks := tasks)]) == TotalTasks(weeks) - |weeks[i].tasks| + |tasks|
  {
    TotalTasksUpdate(weeks, i, weeks[i].(tasks := tasks));
  }

  /** Giving one week a new task list keeps every week where it is found. */
  lemma NewTasksSameIndex(weeks: seq<Week>, i: int, tasks: seq<Task>, weekId: string)
    requires 0 <= i < |weeks|
    ensures WeekIndex(weeks[i := weeks[i].(tasks := tasks)], weekId) == WeekIndex(weeks, weekId)
  {
    assert WeekIds(weeks[i := weeks[i].(tasks := tasks)]) == WeekIds(weeks);
  }

  lemma SameAllocationTrans(a: seq<Week>, b: seq<Week>, c: seq<Week>)
    requires SameAllocation(a, b) && SameAllocation(b, c)
    ensures SameAllocation(a, c)
  {
  }

  /** moveTask with both weeks and that task present: that task, with its week id set to the
      destination, ends the destination list; the source loses it and keeps its other tasks in
      order; no other week changes. */
  lemma MoveTaskMoves(d: YearData, taskId: string, fromWeekId: string, toWeekId: string)
    ensures var e := MoveTask(d, taskId, fromWeekId, toWeekId);
      var fi := WeekIndex(d.weeks, fromWeekId);
      var ti := WeekIndex(d.weeks, toWeekId);
      fi != -1 && ti != -1 && TaskIndex(d.weeks[fi].tasks, taskId) != -1 ==>
        var task := d.weeks[fi].tasks[TaskIndex(d.weeks[fi].tasks, taskId)];
        && |e.weeks[ti].tasks| > 0
        && e.weeks[ti].tasks[|e.weeks[ti].tasks| - 1] == task.(weekId := toWeekId)
        && (fi != ti ==> e.weeks[fi].tasks == RemoveAt(d.weeks[fi].tasks, TaskIndex(d.weeks[fi].tasks, taskId)))
        && (fi != ti ==> e.weeks[ti].tasks == d.weeks[ti].tasks + [task.(weekId := toWeekId)])
        && (fi == ti ==>
              e.weeks[fi].tasks ==
              RemoveAt(d.weeks[fi].tasks, TaskIndex(d.weeks[fi].tasks, taskId)) + [task.(weekId := toWeekId)])
        && forall k :: 0 <= k < |d.weeks| && k != fi && k != ti ==> e.weeks[k] == d.weeks[k]
  {
  }

  // ---------------------------------------------------------------------------
  // reorderWeeks

  /** The new `order` of a week whose order is `order` when the week at `from` moves to `to`. */
  function ShiftOrder(order: int, from: int, to: int): (r: int)
    ensures order == from ==> r == to
    ensures order != from && ((order < from && order < to) || (order > from && order > to)) ==> r == order
    ensures order != from && from < to && from < order <= to ==> r == order - 1
    ensures order != from && to < from && to <= order < from ==> r == order + 1
  {
    if order == from then to
    else if from < to then
      if order > from && order <= to then order - 1 else order
    else
      if order >= to && order < from then order + 1 else order
  }

  /** The `forEach` that renumbers every week. */
  function Renumbered(weeks: seq<Week>, from: int, to: int): (r: seq<Week>)
    ensures |r| == |weeks|
    ensures forall k :: 0 <= k < |weeks| ==> r[k] == weeks[k].(order := ShiftOrder(weeks[k].order, from, to))
  {
    seq(|weeks|, k requires 0 <= k < |weeks| => weeks[k].(order := ShiftOrder(weeks[k].order, from, to)))
  }

  /** The sort key `(a, b) => a.order - b.order`. */
  function OrderOf(w: Week): int
  {
    w.order
  }

  /** `reorderWeeks`: renumber, then sort the weeks by order. */
  function ReorderWeeks(d: YearData, from: int, to: int): YearData
  {
    d.(weeks := SortBy(Renumbered(d.weeks, from, to), OrderOf))
  }

  /** The orders of the weeks are 1, ..., N in some arrangement. */
  ghost predicate OrdersArePermutation(weeks: seq<Week>)
  {
    && (forall k :: 0 <= k < |weeks| ==> 1 <= weeks[k].order <= |weeks|)
    && (forall k, m :: 0 <= k < m < |weeks| ==> weeks[k].order != weeks[m].order)
  }

  /** For `from`, `to` in 1..n the renumbering maps 1..n one-to-one into 1..n. */
  lemma ShiftOrderInjective(a: int, b: int, from: int, to: int, n: int)
    requires 1 <= a <= n && 1 <= b <= n && 1 <= from <= n && 1 <= to <= n && a != b
    ensures 1 <= ShiftOrder(a, from, to) <= n
    ensures ShiftOrder(a, from, to) != ShiftOrder(b, from, to)
  {
  }

  lemma ShiftOrderInRange(a: int, from: int, to: int, n: int)
    requires 1 <= a <= n && 1 <= from <= n && 1 <= to <= n
    ensures 1 <= ShiftOrder(a, from, to) <= n
  {
  }

  /** Renumbering a permutation of 1..N with `from` and `to` in 1..N gives a permutation. */
  lemma RenumberedIsPermutation(weeks: seq<Week>, from: int, to: int)
    requires OrdersArePermutation(weeks)
    requires 1 <= from <= |weeks| && 1 <= to <= |weeks|
    ensures OrdersArePermutation(Renumbered(weeks, from, to))
  {
    var n := |weeks|;
    var renumbered := Renumbered(weeks, from, to);
    forall k, m | 0 <= k < m < n ensures renumbered[k].order != renumbered[m].order {
      ShiftOrderInjective(weeks[k].order, weeks[m].order, from, to, n);
    }
    forall k | 0 <= k < n ensures 1 <= renumbered[k].order <= n {
      ShiftOrderInRange(weeks[k].order, from, to, n);
    }
  }

  /** On orders that are a permutation of 1..N, with `from` and `to` in 1..N, reorderWeeks
      keeps every week (with its order renumbered) and leaves the weeks numbered 1..N in
      list order. */
  lemma ReorderWeeksPermutes(d: YearData, from: int, to: int)
    requires OrdersArePermutation(d.weeks)
    requires 1 <= from <= |d.weeks| && 1 <= to <= |d.weeks|
    ensures var r := ReorderWeeks(d, from, to).weeks;
      && |r| == |d.weeks|
      && multiset(r) == multiset(Renumbered(d.weeks, from, to))
      && forall i :: 0 <= i < |r| ==> r[i].order == i + 1
  {
    var renumbered := Renumbered(d.weeks, from, to);
    RenumberedIsPermutation(d.weeks, from, to);
    SortPermutationKeys(renumbered, OrderOf);
  }

  /** ... and the week that had order `from` ends at position `to` with order `to`. */
  lemma ReorderWeeksPlacesMoved(d: YearData, from: int, to: int, k: int)
    requires OrdersArePermutation(d.weeks)
    requires 1 <= from <= |d.weeks| && 1 <= to <= |d.weeks|
    requires 0 <= k < |d.weeks| && d.weeks[k].order == from
    ensures ReorderWeeks(d, from, to).weeks[to - 1] == d.weeks[k].(order := to)
  {
    var renumbered := Renumbered(d.weeks, from, to);
    RenumberedIsPermutation(d.weeks, from, to);
    assert renumbered[k] == d.weeks[k].(order := to);
    SortPermutationPlaces(renumbered, OrderOf, k);
  }

  /** Moving a week onto its own place in a list sorted by order changes nothing. */
  lemma ReorderWeeksSamePlace(d: YearData, order: int)
    requires SortedBy(d.weeks, OrderOf)
    ensures ReorderWeeks(d, order, order) == d
  {
    assert Renumbered(d.weeks, order, order) == d.weeks;
    SortSortedIsIdentity(d.weeks, OrderOf);
  }

  /** Reordering the weeks, whatever the orders, keeps the store consistent: renumbering
      touches no id, flag or owner, and sorting only rearranges the weeks. */
  lemma ReorderWeeksPreservesValid(d: YearData, from: int, to: int)
    requires Valid(d)
    ensures Valid(ReorderWeeks(d, from, to))
  {
    var renumbered := d.(weeks := Renumbered(d.weeks, from, to));
    SameAllocationValid(d, renumbered);
    PermutedWeeksValid(renumbered, ReorderWeeks(d, from, to));
  }

  /** A consistent year stays consistent when its weeks are rearranged. */
  lemma PermutedWeeksValid(d: YearData, e: YearData)
    requires Valid(d) && multiset(e.weeks) == multiset(d.weeks)
    requires e.sprints == d.sprints && e.vacationWeekIds == d.vacationWeekIds
    ensures Valid(e)
  {
    PermutedIdsDistinct(d.weeks, e.weeks);
    forall id ensures IsVacationWeek(e.weeks, id) == IsVacationWeek(d.weeks, id) {
      if IsVacationWeek(e.weeks, id) {
        var k :| 0 <= k < |e.weeks| && e.weeks[k].id == id && e.weeks[k].isVacation;
        var m := PermutedIndex(d.weeks, e.weeks, k);
      }
      if IsVacationWeek(d.weeks, id) {
        var m :| 0 <= m < |d.weeks| && d.weeks[m].id == id && d.weeks[m].isVacation;
        var k := PermutedIndex(e.weeks, d.weeks, m);
      }
    }
    forall k | 0 <= k < |e.weeks|
      ensures e.weeks[k].isVacation ==> e.weeks[k].sprintId == None
      ensures e.weeks[k].sprintId.Some? ==>
        ListedBySprint(e.sprints, e.weeks[k].sprintId.value, e.weeks[k].id)
    {
      var m := PermutedIndex(d.weeks, e.weeks, k);
    }
    forall s, j | 0 <= s < |e.sprints| && 0 <= j < |e.sprints[s].weekIds|
      ensures OwnedBy(e.weeks, e.sprints[s].weekIds[j], e.sprints[s].id)
    {
      var wid, sid := e.sprints[s].weekIds[j], e.sprints[s].id;
      assert OwnedBy(d.weeks, wid, sid);
      var m :| 0 <= m < |d.weeks| && d.weeks[m].id == wid && d.weeks[m].sprintId == Some(sid);
      var k := PermutedIndex(e.weeks, d.weeks, m);
    }
  }

  /** Rearranging weeks with distinct ids keeps the ids distinct. */
  lemma PermutedIdsDistinct(a: seq<Week>, b: seq<Week>)
    requires NoDuplicates(WeekIds(a)) && multiset(b) == multiset(a)
    ensures NoDuplicates(WeekIds(b))
  {
    forall i, j | 0 <= i < j < |a| ensures a[i] != a[j] {
      assert WeekIds(a)[i] != WeekIds(a)[j];
    }
    PermutationNoDuplicates(a, b);
    forall i, j | 0 <= i < j < |b| ensures WeekIds(b)[i] != WeekIds(b)[j] {
      var p := PermutedIndex(a, b, i);
      var q := PermutedIndex(a, b, j);
      assert WeekIds(a)[p] != WeekIds(a)[q] || p == q;
    }
  }

  // ---------------------------------------------------------------------------
  // Sprint records and week assignment

  /** `assignWeekToSprint`: overwrite the sprint id of the first week with the id, unchecked. */
  function AssignWeekToSprint(d: YearData, weekId: string, sprintId: Option<string>): (e: YearData)
    ensures e.sprints == d.sprints && e.vacationWeekIds == d.vacationWeekIds && e.year == d.year
    ensures |e.weeks| == |d.weeks|
    ensures forall k :: 0 <= k < |d.weeks| ==>
      e.weeks[k] == if k == WeekIndex(d.weeks, weekId) then d.weeks[k].(sprintId := sprintId) else d.weeks[k]
  {
    var i := WeekIndex(d.weeks, weekId);
    if i == -1 then d else d.(weeks := d.weeks[i := d.weeks[i].(sprintId := sprintId)])
  }

  /** `addSprint`. */
  function AddSprint(d: YearData, sprint: Sprint): (e: YearData)
    ensures e.weeks == d.weeks && e.vacationWeekIds == d.vacationWeekIds && e.year == d.year
    ensures |e.sprints| == |d.sprints| + 1 && e.sprints[..|d.sprints|] == d.sprints
    ensures e.sprints[|d.sprints|] == sprint
  {
    d.(sprints := d.sprints + [sprint])
  }

  /** `sprints.findIndex((s) => s.id === sprintId)`. */
  function SprintIndex(sprints: seq<Sprint>, sprintId: string): (i: int)
    ensures -1 <= i < |sprints|
    ensures i == -1 <==> forall k :: 0 <= k < |sprints| ==> sprints[k].id != sprintId
    ensures 0 <= i ==> sprints[i].id == sprintId && forall k :: 0 <= k < i ==> sprints[k].id != sprintId
  {
    var i := IndexOf(SprintIds(sprints), sprintId);
    assert i == -1 ==> forall k :: 0 <= k < |sprints| ==> SprintIds(sprints)[k] != sprintId;
    assert 0 <= i ==> forall k :: 0 <= k < i ==> SprintIds(sprints)[..i][k] != sprintId;
    i
  }

  /** A `Partial<Sprint>`. */
  datatype SprintPatch = SprintPatch(
    id: Option<string>, title: Option<string>, goalPitch: Option<string>,
    colorTheme: Option<SprintColor>, weekIds: Option<seq<string>>, year: Option<int>,
    order: Option<int>)

  /** `Object.assign(sprint, updates)`: each field the patch carries replaces the sprint's. */
  function PatchSprint(s: Sprint, u: SprintPatch): (r: Sprint)
    ensures r.id == (if u.id.Some? then u.id.value else s.id)
    ensures r.title == (if u.title.Some? then u.title.value else s.title)
    ensures r.goalPitch == (if u.goalPitch.Some? then u.goalPitch.value else s.goalPitch)
    ensures r.colorTheme == (if u.colorTheme.Some? then u.colorTheme.value else s.colorTheme)
    ensures r.weekIds == (if u.weekIds.Some? then u.weekIds.value else s.weekIds)
    ensures r.year == (if u.year.Some? then u.year.value else s.year)
    ensures r.order == (if u.order.Some? then u.order.value else s.order)
  {
    Sprint(
      if u.id.Some? then u.id.value else s.id,
      if u.title.Some? then u.title.value else s.title,
      if u.goalPitch.Some? then u.goalPitch.value else s.goalPitch,
      if u.colorTheme.Some? then u.colorTheme.value else s.colorTheme,
      if u.weekIds.Some? then u.weekIds.value else s.weekIds,
      if u.year.Some? then u.year.value else s.year,
      if u.order.Some? then u.order.value else s.order)
  }

  /** `updateSprintData`: merge the patch into the first sprint with the id. */
  function UpdateSprintData(d: YearData, sprintId: string, u: SprintPatch): YearData
  {
    var i := SprintIndex(d.sprints, sprintId);
    if i == -1 then d else d.(sprints := d.sprints[i := PatchSprint(d.sprints[i], u)])
  }

  /** updateSprintData patches only the first sprint with the id, in place, and touches no
      week; an unknown id changes nothing. */
  lemma UpdateSprintDataPatchesOne(d: YearData, sprintId: string, u: SprintPatch)
    ensures var e, i := UpdateSprintData(d, sprintId, u), SprintIndex(d.sprints, sprintId);
      && e.weeks == d.weeks && e.vacationWeekIds == d.vacationWeekIds && e.year == d.year
      && |e.sprints| == |d.sprints|
      && (i == -1 ==> e == d)
      && (forall t :: 0 <= t < |d.sprints| && t != i ==> e.sprints[t] == d.sprints[t])
      && (i != -1 ==> e.sprints[i] == PatchSprint(d.sprints[i], u))
  {
  }

  /** Applying the same sprint patch twice is the same as applying it once when it keeps the
      sprint's id. */
  lemma UpdateSprintDataIdempotent(d: YearData, sprintId: string, u: SprintPatch)
    requires u.id.None? || u.id == Some(sprintId)
    ensures var e := UpdateSprintData(d, sprintId, u);
      UpdateSprintData(e, sprintId, u) == e
  {
    var i := SprintIndex(d.sprints, sprintId);
    if i != -1 {
      var e := UpdateSprintData(d, sprintId, u);
      var s := e.sprints[i];
      assert s.id == sprintId;
      assert SprintIndex(e.sprints, sprintId) == i;
      assert PatchSprint(s, u) == s;
      assert e.sprints[i := s] == e.sprints;
    }
  }

  /** `removeSprint`: delete the first sprint with the id. */
  function RemoveSprint(d: YearData, sprintId: string): YearData
  {
    var i := SprintIndex(d.sprints, sprintId);
    if i == -1 then d else d.(sprints := RemoveAt(d.sprints, i))
  }

  /** removeSprint never touches a week and splices out the first sprint with the id, keeping
      the others in order. */
  lemma RemoveSprintKeepsWeeks(d: YearData, sprintId: string)
    ensures var e := RemoveSprint(d, sprintId);
      && e.weeks == d.weeks && e.vacationWeekIds == d.vacationWeekIds
      && (SprintIndex(d.sprints, sprintId) == -1 ==> e == d)
      && (SprintIndex(d.sprints, sprintId) != -1 ==>
            e.sprints == RemoveAt(d.sprints, SprintIndex(d.sprints, sprintId)))
      && (NoDuplicates(SprintIds(d.sprints)) ==> forall s :: s in e.sprints <==> s in d.sprints && s.id != sprintId)
  {
    var i := SprintIndex(d.sprints, sprintId);
    if i != -1 && NoDuplicates(SprintIds(d.sprints)) {
      var e := RemoveSprint(d, sprintId);
      forall s ensures s in e.sprints <==> s in d.sprints && s.id != sprintId {
        if s in d.sprints && s.id != sprintId {
          var k :| 0 <= k < |d.sprints| && d.sprints[k] == s;
          if k < i { assert e.sprints[k] == s; } else { assert e.sprints[k - 1] == s; }
        }
        if s in e.sprints {
          var k :| 0 <= k < |e.sprints| && e.sprints[k] == s;
          if k >= i { assert SprintIds(d.sprints)[k + 1] != SprintIds(d.sprints)[i]; }
        }
      }
    }
  }
}
