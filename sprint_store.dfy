// The sprint store (src/stores/sprintStore.ts): its actions run against the year store
// object and end in the state module SprintPlan describes.

module SprintStore {
  import opened Types
  import opened Lists
  import opened Allocation
  import opened SprintPlan
  import opened YearStore

  /** The ids the walk collects from position `i` on, wanting `want` more weeks. */
  function ClaimedFrom(weeks: seq<Week>, i: int, want: int): seq<string>
  {
    if 0 <= i <= |weeks| && 0 <= want then IdsAt(weeks, Claim(weeks, i, want)) else []
  }

  /** One step of the walk, in terms of the ids it collects. */
  lemma ClaimedFromStep(weeks: seq<Week>, i: int, want: int)
    requires 0 <= i <= |weeks| && 0 <= want
    ensures want == 0 || i == |weeks| ==> ClaimedFrom(weeks, i, want) == []
    ensures want > 0 && i < |weeks| && Free(weeks[i]) ==>
      ClaimedFrom(weeks, i, want) == [weeks[i].id] + ClaimedFrom(weeks, i + 1, want - 1)
    ensures want > 0 && i < |weeks| && weeks[i].isVacation ==> ClaimedFrom(weeks, i, want) == []
    ensures want > 0 && i < |weeks| && !Free(weeks[i]) && !weeks[i].isVacation ==>
      ClaimedFrom(weeks, i, want) == ClaimedFrom(weeks, i + 1, want)
  {
    ClaimStep(weeks, i, want);
    if want > 0 && i < |weeks| && Free(weeks[i]) {
      IdsAtCons(weeks, i, Claim(weeks, i + 1, want - 1));
    }
  }

  /** The whole walk from `start` collects the ids `createSprint` claims. */
  lemma ClaimedIdsFrom(weeks: seq<Week>, start: int)
    requires 0 <= start < |weeks|
    ensures ClaimedIds(weeks, start) == ClaimedFrom(weeks, start, WEEKS_PER_SPRINT)
  {
  }

  /** The `while` loop of `createSprint`: walk forward from `start`, collect free weeks,
      step over weeks another sprint holds, stop at a vacation week or after six weeks. */
  method ClaimWeeks(weeks: seq<Week>, start: int) returns (weekIds: seq<string>)
    requires 0 <= start < |weeks|
    ensures weekIds == ClaimedFrom(weeks, start, WEEKS_PER_SPRINT)
  {
    hide ClaimedFrom;
    weekIds := [];
    var current := start;
    while |weekIds| < WEEKS_PER_SPRINT && current < |weeks|
      invariant start <= current <= |weeks|
      invariant |weekIds| <= WEEKS_PER_SPRINT
      invariant weekIds + ClaimedFrom(weeks, current, WEEKS_PER_SPRINT - |weekIds|) == ClaimedFrom(weeks, start, WEEKS_PER_SPRINT)
    {
      var week := weeks[current];
      ClaimedFromStep(weeks, current, WEEKS_PER_SPRINT - |weekIds|);
      if !week.isVacation && week.sprintId == None {
        AppendShift(weekIds, week.id, ClaimedFrom(weeks, current + 1, WEEKS_PER_SPRINT - |weekIds| - 1));
        weekIds := weekIds + [week.id];
      } else if week.isVacation {
        assert weekIds + [] == weekIds;
        break;
      } else {
        // the week belongs to another sprint: step over it
        current := current + 1;
        continue;
      }
      current := current + 1;
    }
    ClaimedFromStep(weeks, current, WEEKS_PER_SPRINT - |weekIds|);
    assert weekIds + [] == weekIds;
  }

  /** The ids at a position list that starts with `p`. */
  lemma IdsAtCons(weeks: seq<Week>, p: int, positions: seq<int>)
    requires forall a :: 0 <= a < |positions| ==> 0 <= positions[a] < |weeks|
    requires 0 <= p < |weeks|
    ensures IdsAt(weeks, [p] + positions) == [weeks[p].id] + IdsAt(weeks, positions)
  {
    var l := IdsAt(weeks, [p] + positions);
    var r := [weeks[p].id] + IdsAt(weeks, positions);
    forall a | 0 <= a < |l| ensures l[a] == r[a] {
      if a > 0 {
        assert ([p] + positions)[a] == positions[a - 1];
      }
    }
  }

  /** `createSprint`. */
  method CreateSprint(store: Store, startWeekId: string, title: Option<string>, newId: string)
    returns (created: Option<Sprint>)
    modifies store
    ensures (store.Data(), created)
      == SprintPlan.CreateSprint(old(store.Data()), store.currentYear, startWeekId, title, newId)
    ensures old(Valid(store.Data())) && newId !in SprintIds(old(store.sprints)) ==> Valid(store.Data())
  {
    hide Valid, AssignAll, AssignWeekToSprint, AddSprint, NewSprint, ClaimedIds, ClaimedFrom, WeekIndex, SprintIds;
    ghost var d := store.Data();
    if Valid(d) && newId !in SprintIds(d.sprints) {
      CreateSprintPreservesValid(d, store.currentYear, startWeekId, title, newId);
    }
    var start := WeekIndex(store.weeks, startWeekId);
    if start == -1 {
      return None;
    }
    var weekIds := ClaimWeeks(store.weeks, start);
    ClaimedIdsFrom(store.weeks, start);
    if |weekIds| != WEEKS_PER_SPRINT {
      return None;
    }
    var sprint := NewSprint(store.Data(), store.currentYear, title, newId, weekIds);
    store.AddSprint(sprint);
    ghost var added := store.Data();
    var j := 0;
    while j < |weekIds|
      invariant 0 <= j <= |weekIds|
      invariant AssignAll(store.Data(), weekIds[j..], Some(newId)) == AssignAll(added, weekIds, Some(newId))
      modifies store
    {
      assert weekIds[j..][1..] == weekIds[j + 1..];
      AssignAllStep(store.Data(), weekIds[j..], Some(newId));
      store.AssignWeekToSprint(weekIds[j], Some(newId));
      j := j + 1;
    }
    AssignAllStep(store.Data(), weekIds[j..], Some(newId));
    return Some(sprint);
  }

  /** `deleteSprint`. */
  method DeleteSprint(store: Store, sprintId: string)
    modifies store
    ensures store.Data() == SprintPlan.DeleteSprint(old(store.Data()), sprintId)
    ensures old(Valid(store.Data())) ==> Valid(store.Data())
  {
    hide Valid, AssignAll, AssignWeekToSprint, RemoveSprint, GetSprint, SprintIndex, WeekIndex;
    ghost var d := store.Data();
    if Valid(d) {
      DeleteSprintPreservesValid(d, sprintId);
    }
    var found := GetSprint(store.Data(), sprintId);
    if found.None? {
      return;
    }
    var weekIds := found.value.weekIds;
    var j := 0;
    while j < |weekIds|
      invariant 0 <= j <= |weekIds|
      invariant AssignAll(store.Data(), weekIds[j..], None) == AssignAll(d, weekIds, None)
      modifies store
    {
      assert weekIds[j..][1..] == weekIds[j + 1..];
      AssignAllStep(store.Data(), weekIds[j..], None);
      store.AssignWeekToSprint(weekIds[j], None);
      j := j + 1;
    }
    AssignAllStep(store.Data(), weekIds[j..], None);
    store.RemoveSprint(sprintId);
  }

  /** `updateSprint`. */
  method UpdateSprint(store: Store, sprintId: string, u: SprintSettings)
    modifies store
    ensures store.Data() == SprintPlan.UpdateSprint(old(store.Data()), sprintId, u)
    ensures old(Valid(store.Data())) ==> Valid(store.Data())
  {
    ghost var d := store.Data();
    if Valid(d) {
      UpdateSprintPreservesValid(d, sprintId, u);
    }
    store.UpdateSprintData(sprintId, SprintPatch(None, u.title, u.goalPitch, u.colorTheme, None, None, u.order));
  }
}
