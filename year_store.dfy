// The year store object (src/stores/yearStore.ts): the live year, changed in place by
// its actions. Each method ends in the state module Allocation describes, so the lemmas
// proved there carry over to the object.

module YearStore {
  import opened Types
  import opened Lists
  import opened Sorting
  import opened Allocation

  class Store {
    /** The year the store was opened for (`currentYear`). */
    const currentYear: int
    var year: int
    var weeks: seq<Week>
    var sprints: seq<Sprint>
    var vacationWeekIds: seq<string>

    /** The stored year as a value. */
    function Data(): YearData
      reads this
    {
      YearData(year, weeks, sprints, vacationWeekIds)
    }

    /** A store holding a year that was loaded or generated for `currentYear`. */
    constructor (currentYear: int, initial: YearData)
      ensures this.currentYear == currentYear && Data() == initial
    {
      this.currentYear := currentYear;
      year := initial.year;
      weeks := initial.weeks;
      sprints := initial.sprints;
      vacationWeekIds := initial.vacationWeekIds;
    }

    /** `toggleVacation`. */
    method ToggleVacation(weekId: string) returns (ok: bool)
      modifies this
      ensures (Data(), ok) == Allocation.ToggleVacation(old(Data()), weekId)
      ensures old(Valid(Data())) ==> Valid(Data())
    {
      ghost var d := Data();
      var i := WeekIndex(weeks, weekId);
      if i == -1 {
        return false;
      }
      if weeks[i].isVacation {
        weeks := weeks[i := weeks[i].(isVacation := false)];
        vacationWeekIds := Without(vacationWeekIds, weekId);
        ok := true;
      } else if !(|vacationWeekIds| < MAX_VACATION_WEEKS) {
        ok := false;
      } else if weeks[i].sprintId != None {
        ok := false;
      } else {
        weeks := weeks[i := weeks[i].(isVacation := true)];
        vacationWeekIds := vacationWeekIds + [weekId];
        ok := true;
      }
      if Valid(d) {
        ToggleVacationPreservesValid(d, weekId);
      }
    }

    /** `addTask`. */
    method AddTask(weekId: string, title: string, taskId: string) returns (task: Task)
      modifies this
      ensures (Data(), task) == Allocation.AddTask(old(Data()), weekId, title, taskId)
      ensures old(Valid(Data())) ==> Valid(Data())
    {
      ghost var d := Data();
      task := Task(taskId, title, false, weekId);
      var i := WeekIndex(weeks, weekId);
      if i != -1 {
        weeks := weeks[i := weeks[i].(tasks := weeks[i].tasks + [task])];
      }
      AddTaskAppends(d, weekId, title, taskId);
      if Valid(d) {
        SameAllocationValid(d, Data());
      }
    }

    /** `updateTask`. */
    method UpdateTask(weekId: string, taskId: string, u: TaskPatch)
      modifies this
      ensures Data() == Allocation.UpdateTask(old(Data()), weekId, taskId, u)
      ensures old(Valid(Data())) ==> Valid(Data())
    {
      ghost var d := Data();
      var i := WeekIndex(weeks, weekId);
      if i != -1 {
        var j := TaskIndex(weeks[i].tasks, taskId);
        if j != -1 {
          weeks := weeks[i := weeks[i].(tasks := weeks[i].tasks[j := PatchTask(weeks[i].tasks[j], u)])];
        }
      }
      UpdateTaskKeepsAllocation(d, weekId, taskId, u);
      if Valid(d) {
        SameAllocationValid(d, Data());
      }
    }

    /** `deleteTask`. */
    method DeleteTask(weekId: string, taskId: string)
      modifies this
      ensures Data() == Allocation.DeleteTask(old(Data()), weekId, taskId)
      ensures old(Valid(Data())) ==> Valid(Data())
    {
      ghost var d := Data();
      var i := WeekIndex(weeks, weekId);
      if i != -1 {
        weeks := weeks[i := weeks[i].(tasks := Filter(weeks[i].tasks, IdIsNot(taskId)))];
      }
      DeleteTaskRemoves(d, weekId, taskId);
      if Valid(d) {
        SameAllocationValid(d, Data());
      }
    }

    /** `moveTask`. */
    method MoveTask(taskId: string, fromWeekId: string, toWeekId: string)
      modifies this
      ensures Data() == Allocation.MoveTask(old(Data()), taskId, fromWeekId, toWeekId)
      ensures old(Valid(Data())) ==> Valid(Data())
    {
      ghost var d := Data();
      MoveTaskKeepsAllocation(d, taskId, fromWeekId, toWeekId);
      if Valid(d) {
        SameAllocationValid(d, Allocation.MoveTask(d, taskId, fromWeekId, toWeekId));
      }
      var fromIndex := WeekIndex(weeks, fromWeekId);
      var toIndex := WeekIndex(weeks, toWeekId);
      if fromIndex == -1 || toIndex == -1 {
        return;
      }
      var taskIndex := TaskIndex(weeks[fromIndex].tasks, taskId);
      if taskIndex == -1 {
        return;
      }
      var task := weeks[fromIndex].tasks[taskIndex];
      weeks := weeks[fromIndex := weeks[fromIndex].(tasks := RemoveAt(weeks[fromIndex].tasks, taskIndex))];
      task := task.(weekId := toWeekId);
      weeks := weeks[toIndex := weeks[toIndex].(tasks := weeks[toIndex].tasks + [task])];
    }

    /** `reorderWeeks`: renumber every week in a `forEach`, then sort by order. */
    method ReorderWeeks(fromOrder: int, toOrder: int)
      modifies this
      ensures Data() == Allocation.ReorderWeeks(old(Data()), fromOrder, toOrder)
      ensures old(Valid(Data())) ==> Valid(Data())
    {
      ghost var d := Data();
      var k := 0;
      while k < |weeks|
        invariant 0 <= k <= |weeks| == |old(weeks)|
        invariant weeks[..k] == Renumbered(old(weeks), fromOrder, toOrder)[..k]
        invariant weeks[k..] == old(weeks)[k..]
        invariant year == old(year) && sprints == old(sprints) && vacationWeekIds == old(vacationWeekIds)
      {
        var week := weeks[k];
        assert week == old(weeks)[k];
        if week.order == fromOrder {
          week := week.(order := toOrder);
        } else if fromOrder < toOrder {
          if week.order > fromOrder && week.order <= toOrder {
            week := week.(order := week.order - 1);
          }
        } else {
          if week.order >= toOrder && week.order < fromOrder {
            week := week.(order := week.order + 1);
          }
        }
        weeks := weeks[k := week];
        k := k + 1;
      }
      assert weeks == weeks[..k] == Renumbered(old(weeks), fromOrder, toOrder);
      weeks := SortBy(weeks, OrderOf);
      if Valid(d) {
        ReorderWeeksPreservesValid(d, fromOrder, toOrder);
      }
    }

    /** `assignWeekToSprint`. */
    method AssignWeekToSprint(weekId: string, sprintId: Option<string>)
      modifies this
      ensures Data() == Allocation.AssignWeekToSprint(old(Data()), weekId, sprintId)
    {
      var i := WeekIndex(weeks, weekId);
      if i != -1 {
        weeks := weeks[i := weeks[i].(sprintId := sprintId)];
      }
    }

    /** `addSprint`. */
    method AddSprint(sprint: Sprint)
      modifies this
      ensures Data() == Allocation.AddSprint(old(Data()), sprint)
    {
      sprints := sprints + [sprint];
    }

    /** `updateSprintData`. */
    method UpdateSprintData(sprintId: string, u: SprintPatch)
      modifies this
      ensures Data() == Allocation.UpdateSprintData(old(Data()), sprintId, u)
    {
      var i := SprintIndex(sprints, sprintId);
      if i != -1 {
        sprints := sprints[i := PatchSprint(sprints[i], u)];
      }
    }

    /** `removeSprint`. */
    method RemoveSprint(sprintId: string)
      modifies this
      ensures Data() == Allocation.RemoveSprint(old(Data()), sprintId)
    {
      var i := SprintIndex(sprints, sprintId);
      if i != -1 {
        sprints := RemoveAt(sprints, i);
      }
    }
  }
}
