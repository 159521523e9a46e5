// The single-week page (src/components/WeekDetailView.tsx): which week is shown, its
// neighbours in the year, and the two commands that change the year from this page.

module WeekDetailView {
  import opened Types
  import opened Lists
  import opened Text
  import opened Allocation
  import opened YearStore

  /** The `week` memo: the week whose id the view shows, when that id is set and known. */
  function ActiveWeek(d: YearData, activeViewId: Option<string>): (r: Option<Week>)
    ensures r.Some? <==> Truthy(activeViewId) && activeViewId.value in WeekIds(d.weeks)
    ensures r.Some? ==> r.value in d.weeks && r.value.id == activeViewId.value
    ensures r.Some? ==>
      WeekIndex(d.weeks, activeViewId.value) != -1 && r.value == d.weeks[WeekIndex(d.weeks, activeViewId.value)]
  {
    if Truthy(activeViewId) then GetWeek(d, activeViewId.value) else None
  }

  datatype Navigation = Navigation(previousId: Option<string>, nextId: Option<string>)

  /** `weekNavigation`: the ids of the weeks just before and just after the shown week in the
      year's week list. */
  function WeekNavigation(d: YearData, week: Option<Week>): (nav: Navigation)
    ensures week.None? || |d.weeks| == 0 || week.value.id !in WeekIds(d.weeks) ==>
      nav == Navigation(None, None)
    ensures week.Some? && week.value.id in WeekIds(d.weeks) ==>
      var i := WeekIndex(d.weeks, week.value.id);
      && (nav.previousId.None? <==> i == 0)
      && (nav.previousId.Some? ==> nav.previousId.value == d.weeks[i - 1].id)
      && (nav.nextId.None? <==> i == |d.weeks| - 1)
      && (nav.nextId.Some? ==> nav.nextId.value == d.weeks[i + 1].id)
  {
    if week.None? || |d.weeks| == 0 then Navigation(None, None)
    else
      var index := WeekIndex(d.weeks, week.value.id);
      if index == -1 then Navigation(None, None)
      else Navigation(
        if index > 0 then Some(d.weeks[index - 1].id) else None,
        if index < |d.weeks| - 1 then Some(d.weeks[index + 1].id) else None)
  }

  /** With distinct, non-empty week ids, stepping to the next week and then to its previous
      week comes back to the week the view started from, and the other way round. */
  lemma NavigationRoundTrip(d: YearData, activeViewId: Option<string>)
    requires NoDuplicates(WeekIds(d.weeks))
    requires forall k :: 0 <= k < |d.weeks| ==> d.weeks[k].id != ""
    ensures var here := ActiveWeek(d, activeViewId);
      var nav := WeekNavigation(d, here);
      && (nav.nextId.Some? ==>
            WeekNavigation(d, ActiveWeek(d, nav.nextId)).previousId == Some(here.value.id))
      && (nav.previousId.Some? ==>
            WeekNavigation(d, ActiveWeek(d, nav.previousId)).nextId == Some(here.value.id))
  {
    var here := ActiveWeek(d, activeViewId);
    var nav := WeekNavigation(d, here);
    if here.Some? {
      var i := WeekIndex(d.weeks, here.value.id);
      if nav.nextId.Some? {
        WeekIndexOf(d.weeks, i + 1);
        assert d.weeks[i + 1].id in WeekIds(d.weeks);
      }
      if nav.previousId.Some? {
        WeekIndexOf(d.weeks, i - 1);
        assert d.weeks[i - 1].id in WeekIds(d.weeks);
      }
    }
  }

  /** `handleAddTask`: add a task with the trimmed input as title to the shown week, and clear
      the input, but only when a week is shown and the trimmed input is not empty. The id the
      source draws from `generateId` is a parameter. */
  method HandleAddTask(store: Store, activeViewId: Option<string>, input: string, taskId: string)
    returns (newInput: string)
    modifies store
    ensures var week := ActiveWeek(old(store.Data()), activeViewId);
      if week.Some? && Trim(input) != "" then
        && store.Data() == Allocation.AddTask(old(store.Data()), week.value.id, Trim(input), taskId).0
        && newInput == ""
      else
        && store.Data() == old(store.Data())
        && newInput == input
  {
    var w := ActiveWeek(store.Data(), activeViewId);
    var title := Trim(input);
    newInput := input;
    if w.Some? && title != "" {
      var _ := store.AddTask(w.value.id, title, taskId);
      newInput := "";
    }
  }

  /** The drag data a drop carries: `type`, `id` and the optional `sourceWeekId`. */
  datatype DragData = DragData(kind: string, id: string, sourceWeekId: Option<string>)

  /** The drag state of the interface store: whether a drag is on, what is dragged, from
      where, and the highlighted drop target. */
  datatype DragState = DragState(
    isDragging: bool, dragType: Option<string>, dragId: Option<string>,
    sourceWeekId: Option<string>, dropTargetId: Option<string>)

  /** The state `endDrag` leaves: no drag and no drop target. */
  const IDLE: DragState := DragState(false, None, None, None, None)

  /** `handleDrop`: a task dropped on the shown week moves there from the week it came from;
      any other drop changes nothing; either way the drag ends. The parsed drag data is a
      parameter, `None` when the drop carries none or it does not parse. */
  method HandleDrop(store: Store, activeViewId: Option<string>, dragData: Option<DragData>)
    returns (drag: DragState)
    modifies store
    ensures drag == IDLE
    ensures var week := ActiveWeek(old(store.Data()), activeViewId);
      if week.Some? && dragData.Some? && dragData.value.kind == "task" && Truthy(dragData.value.sourceWeekId) then
        store.Data() == Allocation.MoveTask(old(store.Data()), dragData.value.id,
          dragData.value.sourceWeekId.value, week.value.id)
      else
        store.Data() == old(store.Data())
  {
    var w := ActiveWeek(store.Data(), activeViewId);
    if w.Some? && dragData.Some? && dragData.value.kind == "task" && Truthy(dragData.value.sourceWeekId) {
      store.MoveTask(dragData.value.id, dragData.value.sourceWeekId.value, w.value.id);
    }
    drag := IDLE;
  }
}
