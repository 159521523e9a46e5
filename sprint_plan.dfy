// What the sprint store (src/stores/sprintStore.ts) does to the stored year, as functions
// of the old `YearData`: the colour choice, the walk that claims six weeks, sprint
// creation and deletion, and the sprint order shown to the user. Module SprintStore runs
// the same steps as loops against the year store object.

module SprintPlan {
  import opened Types
  import opened Text
  import opened Lists
  import opened Sorting
  import opened Allocation

  /** `getSprint`: the first sprint with the id, if any. */
  function GetSprint(d: YearData, sprintId: string): (r: Option<Sprint>)
    ensures r.None? <==> forall k :: 0 <= k < |d.sprints| ==> d.sprints[k].id != sprintId
    ensures r.Some? ==> r.value.id == sprintId && r.value in d.sprints
    ensures r.Some? ==> SprintIndex(d.sprints, sprintId) != -1 && r.value == d.sprints[SprintIndex(d.sprints, sprintId)]
  {
    var i := SprintIndex(d.sprints, sprintId);
    if i == -1 then None else Some(d.sprints[i])
  }

  // ---------------------------------------------------------------------------
  // getNextColor

  /** `sprints.map((s) => s.colorTheme)`. */
  function UsedColors(sprints: seq<Sprint>): (used: seq<SprintColor>)
    ensures |used| == |sprints|
    ensures forall i :: 0 <= i < |sprints| ==> used[i] == sprints[i].colorTheme
  {
    seq(|sprints|, i requires 0 <= i < |sprints| => sprints[i].colorTheme)
  }

  /** The test `(c) => !usedColors.includes(c)`. */
  function NotUsedIn(used: seq<SprintColor>): SprintColor -> bool
  {
    (c: SprintColor) => c !in used
  }

  /** `getNextColor`: the first palette colour no sprint uses, or, when all are taken, the
      palette entry at the sprint count modulo the palette size. */
  function GetNextColor(sprints: seq<Sprint>): (c: SprintColor)
    ensures c in SPRINT_COLORS
    ensures (forall k :: 0 <= k < |SPRINT_COLORS| ==> SPRINT_COLORS[k] in UsedColors(sprints)) ==>
      c == SPRINT_COLORS[|sprints| % |SPRINT_COLORS|]
  {
    var available := Filter(SPRINT_COLORS, NotUsedIn(UsedColors(sprints)));
    if |available| > 0 then available[0] else SPRINT_COLORS[|sprints| % |SPRINT_COLORS|]
  }

  /** When some palette colour is free, getNextColor picks a free one, and none earlier in
      the palette is free. */
  lemma NextColorIsFirstFree(sprints: seq<Sprint>, k: int)
    requires 0 <= k < |SPRINT_COLORS| && SPRINT_COLORS[k] !in UsedColors(sprints)
    ensures GetNextColor(sprints) !in UsedColors(sprints)
    ensures IndexOf(SPRINT_COLORS, GetNextColor(sprints)) <= k
  {
    var p := NotUsedIn(UsedColors(sprints));
    FilterHeadComesFirst(SPRINT_COLORS, p, k);
    assert Filter(SPRINT_COLORS, p)[0] in Filter(SPRINT_COLORS, p);
  }

  /** The palette holds eight different colours. */
  lemma PaletteIsDistinct()
    ensures |set c | c in SPRINT_COLORS| == |SPRINT_COLORS|
  {
    var palette := set c | c in SPRINT_COLORS;
    assert palette == {Crimson} + {Amber} + {Emerald} + {Azure} + {Violet} + {Slate} + {Rose} + {Cyan};
  }

  /** With fewer sprints than palette colours, a new sprint never repeats a colour. */
  lemma FewSprintsGetFreshColor(sprints: seq<Sprint>)
    requires |sprints| < |SPRINT_COLORS|
    ensures GetNextColor(sprints) !in UsedColors(sprints)
  {
    var used := UsedColors(sprints);
    if forall k :: 0 <= k < |SPRINT_COLORS| ==> SPRINT_COLORS[k] in used {
      var palette := set c | c in SPRINT_COLORS;
      var present := set c | c in used;
      PaletteIsDistinct();
      DistinctElementsBound(used);
      SubsetSize(palette, present);
      assert false;
    } else {
      var k :| 0 <= k < |SPRINT_COLORS| && SPRINT_COLORS[k] !in used;
      NextColorIsFirstFree(sprints, k);
    }
  }

  // ---------------------------------------------------------------------------
  // The walk in createSprint

  /** A week a new sprint may take: not vacation and in no sprint. */
  predicate Free(w: Week)
  {
    !w.isVacation && w.sprintId == None
  }

  /** The positions the `while` loop of createSprint claims from position `i` on, taking at
      most `want` more: free weeks are taken, sprint weeks skipped, and the walk stops at the
      first vacation week or the end of the list. */
  function Claim(weeks: seq<Week>, i: int, want: nat): (r: seq<int>)
    requires 0 <= i <= |weeks|
    ensures |r| <= want
    ensures forall a :: 0 <= a < |r| ==> i <= r[a] < |weeks| && Free(weeks[r[a]])
    ensures forall a, b :: 0 <= a < b < |r| ==> r[a] < r[b]
    ensures |r| > 0 ==> forall k :: i <= k <= r[|r| - 1] ==> !weeks[k].isVacation
    decreases |weeks| - i
  {
    if want == 0 || i == |weeks| then []
    else if Free(weeks[i]) then [i] + Claim(weeks, i + 1, want - 1)
    else if weeks[i].isVacation then []
    else Claim(weeks, i + 1, want)
  }

  /** One step of the walk that `Claim` describes. */
  lemma ClaimStep(weeks: seq<Week>, i: int, want: nat)
    requires 0 <= i <= |weeks|
    ensures want == 0 || i == |weeks| ==> Claim(weeks, i, want) == []
    ensures want > 0 && i < |weeks| && Free(weeks[i]) ==> Claim(weeks, i, want) == [i] + Claim(weeks, i + 1, want - 1)
    ensures want > 0 && i < |weeks| && weeks[i].isVacation ==> Claim(weeks, i, want) == []
    ensures want > 0 && i < |weeks| && !Free(weeks[i]) && !weeks[i].isVacation ==> Claim(weeks, i, want) == Claim(weeks, i + 1, want)
  {
  }

  /** The walk skips no free week it passes: every free week reached before a vacation week
      is claimed, up to the last claimed week, or all the way when fewer than `want` were
      found. */
  lemma {:induction false} ClaimSkipsNoFreeWeek(weeks: seq<Week>, i: int, want: nat, k: int)
    requires 0 <= i <= k < |weeks| && Free(weeks[k]) && NoVacationBetween(weeks, i, k)
    requires var r := Claim(weeks, i, want); |r| < want || (|r| > 0 && k <= r[|r| - 1])
    ensures k in Claim(weeks, i, want)
    decreases |weeks| - i
  {
    hide Claim, NoVacationBetween, Free;
    if i == k {
      ClaimFreeHere(weeks, i, want);
    } else if Free(weeks[i]) {
      ClaimFreeStep(weeks, i, want, k);
      ClaimSkipsNoFreeWeek(weeks, i + 1, want - 1, k);
    } else {
      ClaimTakenStep(weeks, i, want, k);
      ClaimSkipsNoFreeWeek(weeks, i + 1, want, k);
    }
  }

  /** A free week where the walk starts is claimed, unless nothing more is wanted. */
  lemma ClaimFreeHere(weeks: seq<Week>, i: int, want: nat)
    requires 0 <= i < |weeks| && Free(weeks[i]) && want > 0
    ensures i in Claim(weeks, i, want)
  {
    ClaimStep(weeks, i, want);
  }

  /** Past a week another sprint holds the walk goes on unchanged. */
  lemma ClaimTakenStep(weeks: seq<Week>, i: int, want: nat, k: int)
    requires 0 <= i < k < |weeks| && !Free(weeks[i]) && NoVacationBetween(weeks, i, k)
    requires var r := Claim(weeks, i, want); |r| < want || (|r| > 0 && k <= r[|r| - 1])
    ensures NoVacationBetween(weeks, i + 1, k)
    ensures Claim(weeks, i, want) == Claim(weeks, i + 1, want)
  {
    ClaimStep(weeks, i, want);
  }

  /** Past a claimed free week the walk still reaches `k`, from one position further on. */
  lemma ClaimFreeStep(weeks: seq<Week>, i: int, want: nat, k: int)
    requires 0 <= i < k < |weeks| && Free(weeks[i]) && NoVacationBetween(weeks, i, k)
    requires var r := Claim(weeks, i, want); |r| < want || (|r| > 0 && k <= r[|r| - 1])
    ensures want > 0 && NoVacationBetween(weeks, i + 1, k)
    ensures var rest := Claim(weeks, i + 1, want - 1);
      && Claim(weeks, i, want) == [i] + rest
      && (|rest| < want - 1 || (|rest| > 0 && k <= rest[|rest| - 1]))
  {
    ClaimStep(weeks, i, want);
  }

  /** A claimed week lies at or after the start and no vacation week precedes it on the walk. */
  lemma ClaimedIsReachable(weeks: seq<Week>, i: int, want: nat, a: int)
    requires 0 <= i <= |weeks| && 0 <= a < |Claim(weeks, i, want)|
    ensures var k := Claim(weeks, i, want)[a];
      i <= k < |weeks| && Free(weeks[k]) && NoVacationBetween(weeks, i, k)
  {
    var r := Claim(weeks, i, want);
    assert r[a] <= r[|r| - 1];
  }

  /** No week from position `i` to position `k` is vacation. */
  predicate NoVacationBetween(weeks: seq<Week>, i: int, k: int)
    requires 0 <= i && k < |weeks|
  {
    forall m :: i <= m <= k ==> !weeks[m].isVacation
  }

  /** The ids of the weeks at the given positions. */
  function IdsAt(weeks: seq<Week>, positions: seq<int>): (ids: seq<string>)
    requires forall a :: 0 <= a < |positions| ==> 0 <= positions[a] < |weeks|
    ensures |ids| == |positions|
    ensures forall a :: 0 <= a < |positions| ==> ids[a] == weeks[positions[a]].id
  {
    seq(|positions|, a requires 0 <= a < |positions| => weeks[positions[a]].id)
  }

  /** The week ids createSprint collects when it starts at position `start`. */
  function ClaimedIds(weeks: seq<Week>, start: int): seq<string>
    requires 0 <= start < |weeks|
  {
    IdsAt(weeks, Claim(weeks, start, WEEKS_PER_SPRINT))
  }

  // ---------------------------------------------------------------------------
  // createSprint, deleteSprint, updateSprint

  /** `weekIds.forEach((weekId) => yearStore.assignWeekToSprint(weekId, sprintId))`. */
  function AssignAll(d: YearData, weekIds: seq<string>, sprintId: Option<string>): YearData
    decreases |weekIds|
  {
    if weekIds == [] then d
    else AssignAll(AssignWeekToSprint(d, weekIds[0], sprintId), weekIds[1..], sprintId)
  }

  /** Assigning no ids changes nothing; assigning a non-empty list assigns its first id,
      then the rest. */
  lemma AssignAllStep(d: YearData, weekIds: seq<string>, sprintId: Option<string>)
    ensures weekIds == [] ==> AssignAll(d, weekIds, sprintId) == d
    ensures weekIds != [] ==>
      AssignAll(d, weekIds, sprintId) == AssignAll(AssignWeekToSprint(d, weekIds[0], sprintId), weekIds[1..], sprintId)
  {
  }

  /** With distinct week ids, assigning a list of ids sets the sprint of exactly the weeks
      listed and changes nothing else. */
  lemma {:induction false} AssignAllEffect(d: YearData, weekIds: seq<string>, sprintId: Option<string>)
    requires NoDuplicates(WeekIds(d.weeks))
    ensures var e := AssignAll(d, weekIds, sprintId);
      && e.sprints == d.sprints && e.vacationWeekIds == d.vacationWeekIds && e.year == d.year
      && |e.weeks| == |d.weeks|
      && forall k :: 0 <= k < |d.weeks| ==>
           e.weeks[k] == if d.weeks[k].id in weekIds then d.weeks[k].(sprintId := sprintId) else d.weeks[k]
    decreases |weekIds|
  {
    if weekIds != [] {
      var d1 := AssignWeekToSprint(d, weekIds[0], sprintId);
      AssignAllStep(d, weekIds, sprintId);
      assert WeekIds(d1.weeks) == WeekIds(d.weeks);
      AssignAllEffect(d1, weekIds[1..], sprintId);
      var e := AssignAll(d, weekIds, sprintId);
      hide *;
      AssignFirstThenRest(d.weeks, d1.weeks, e.weeks, weekIds, sprintId);
    }
  }

  /** Assigning the first id and then the others assigns every id of the list. */
  lemma AssignFirstThenRest(weeks: seq<Week>, mid: seq<Week>, last: seq<Week>, weekIds: seq<string>, sprintId: Option<string>)
    requires NoDuplicates(WeekIds(weeks)) && weekIds != []
    requires |mid| == |weeks| && |last| == |weeks|
    requires forall k :: 0 <= k < |weeks| ==>
      mid[k] == if k == WeekIndex(weeks, weekIds[0]) then weeks[k].(sprintId := sprintId) else weeks[k]
    requires forall k :: 0 <= k < |mid| ==>
      last[k] == if mid[k].id in weekIds[1..] then mid[k].(sprintId := sprintId) else mid[k]
    ensures forall k :: 0 <= k < |weeks| ==>
      last[k] == if weeks[k].id in weekIds then weeks[k].(sprintId := sprintId) else weeks[k]
  {
    forall k | 0 <= k < |weeks| ensures weeks[k].id in weekIds <==> weeks[k].id == weekIds[0] || weeks[k].id in weekIds[1..] {
      assert weekIds == [weekIds[0]] + weekIds[1..];
    }
    forall k | 0 <= k < |weeks| && weeks[k].id == weekIds[0] ensures WeekIndex(weeks, weekIds[0]) == k {
      WeekIndexOf(weeks, k);
    }
  }

  /** The sprint record createSprint builds. */
  function NewSprint(d: YearData, currentYear: int, title: Option<string>, newId: string, weekIds: seq<string>): Sprint
  {
    Sprint(
      newId,
      if Truthy(title) then title.value else "Sprint " + IntToString(|d.sprints| + 1),
      "",
      GetNextColor(d.sprints),
      weekIds,
      currentYear,
      |d.sprints|)
  }

  /** `createSprint`: the new year and the sprint, or the year unchanged and null. The id the
      source draws from `generateId` and the store's current year are parameters. */
  function CreateSprint(d: YearData, currentYear: int, startWeekId: string, title: Option<string>, newId: string)
    : (YearData, Option<Sprint>)
  {
    var start := WeekIndex(d.weeks, startWeekId);
    if start == -1 then (d, None)
    else
      var weekIds := ClaimedIds(d.weeks, start);
      if |weekIds| != WEEKS_PER_SPRINT then (d, None)
      else
        var sprint := NewSprint(d, currentYear, title, newId, weekIds);
        (AssignAll(AddSprint(d, sprint), weekIds, Some(newId)), Some(sprint))
  }

  /** `deleteSprint`: release every week the sprint lists, then remove the sprint. */
  function DeleteSprint(d: YearData, sprintId: string): YearData
  {
    match GetSprint(d, sprintId)
    case None => d
    case Some(sprint) => RemoveSprint(AssignAll(d, sprint.weekIds, None), sprintId)
  }

  /** The fields `updateSprint` accepts: everything but the id, the weeks and the year. */
  datatype SprintSettings = SprintSettings(
    title: Option<string>, goalPitch: Option<string>, colorTheme: Option<SprintColor>, order: Option<int>)

  /** `updateSprint`. */
  function UpdateSprint(d: YearData, sprintId: string, u: SprintSettings): YearData
  {
    UpdateSprintData(d, sprintId, SprintPatch(None, u.title, u.goalPitch, u.colorTheme, None, None, u.order))
  }

  // ---------------------------------------------------------------------------
  // sortedSprints

  /** `weeks.find((w) => w.id === s.weekIds[0])?.order ?? 0`. */
  function FirstWeekOrder(d: YearData, s: Sprint): int
  {
    if |s.weekIds| == 0 then 0
    else match GetWeek(d, s.weekIds[0])
      case None => 0
      case Some(w) => w.order
  }

  /** `sortedSprints`: a sorted copy of the sprints, the stored list left as it is. */
  function SortedSprints(d: YearData): (r: seq<Sprint>)
    ensures multiset(r) == multiset(d.sprints)
    ensures forall i, j :: 0 <= i < j < |r| ==> FirstWeekOrder(d, r[i]) <= FirstWeekOrder(d, r[j])
  {
    SortBy(d.sprints, (s: Sprint) => FirstWeekOrder(d, s))
  }

  // ---------------------------------------------------------------------------
  // What createSprint and deleteSprint do

  /** With distinct week ids, the ids at increasing positions are distinct, and each id
      leads back to its position. */
  lemma IdsAtPositions(weeks: seq<Week>, positions: seq<int>)
    requires NoDuplicates(WeekIds(weeks))
    requires forall a :: 0 <= a < |positions| ==> 0 <= positions[a] < |weeks|
    requires forall a, b :: 0 <= a < b < |positions| ==> positions[a] < positions[b]
    ensures NoDuplicates(IdsAt(weeks, positions))
    ensures forall a :: 0 <= a < |positions| ==> WeekIndex(weeks, IdsAt(weeks, positions)[a]) == positions[a]
  {
    var ids := IdsAt(weeks, positions);
    forall a, b | 0 <= a < b < |ids| ensures ids[a] != ids[b] {
      assert WeekIds(weeks)[positions[a]] != WeekIds(weeks)[positions[b]];
    }
    forall a | 0 <= a < |positions| ensures WeekIndex(weeks, ids[a]) == positions[a] {
      WeekIndexOf(weeks, positions[a]);
    }
  }

  /** With distinct week ids, a week's id is among the ids at some positions exactly when
      the week's position is. */
  lemma IdsAtMembership(weeks: seq<Week>, positions: seq<int>, k: int)
    requires NoDuplicates(WeekIds(weeks)) && 0 <= k < |weeks|
    requires forall a :: 0 <= a < |positions| ==> 0 <= positions[a] < |weeks|
    ensures weeks[k].id in IdsAt(weeks, positions) <==> k in positions
  {
    var ids := IdsAt(weeks, positions);
    if weeks[k].id in ids {
      var a :| 0 <= a < |ids| && ids[a] == weeks[k].id;
      assert WeekIds(weeks)[positions[a]] == WeekIds(weeks)[k];
    }
    if k in positions {
      var a :| 0 <= a < |positions| && positions[a] == k;
      assert ids[a] == weeks[k].id;
    }
  }

  /** The ids createSprint claims are distinct and in list order; a week's id is claimed
      exactly when its position is, and then the week was free, at or after the start, with
      no vacation week from the start up to it. */
  lemma ClaimedIdsMatchPositions(weeks: seq<Week>, start: int)
    requires NoDuplicates(WeekIds(weeks)) && 0 <= start < |weeks|
    ensures var positions := Claim(weeks, start, WEEKS_PER_SPRINT);
      && |ClaimedIds(weeks, start)| == |positions|
      && NoDuplicates(ClaimedIds(weeks, start))
      && (forall k :: 0 <= k < |weeks| ==> (weeks[k].id in ClaimedIds(weeks, start) <==> k in positions))
      && (forall k :: 0 <= k < |weeks| && k in positions ==>
            start <= k && Free(weeks[k]) && NoVacationBetween(weeks, start, k))
      && forall a :: 0 <= a < |positions| ==> WeekIndex(weeks, ClaimedIds(weeks, start)[a]) == positions[a]
  {
    var positions := Claim(weeks, start, WEEKS_PER_SPRINT);
    IdsAtPositions(weeks, positions);
    hide Claim, IdsAt;
    forall k | 0 <= k < |weeks| ensures weeks[k].id in ClaimedIds(weeks, start) <==> k in positions {
      IdsAtMembership(weeks, positions, k);
    }
    forall k | 0 <= k < |weeks| && k in positions
      ensures start <= k && Free(weeks[k]) && NoVacationBetween(weeks, start, k)
    {
      var a :| 0 <= a < |positions| && positions[a] == k;
      ClaimedIsReachable(weeks, start, WEEKS_PER_SPRINT, a);
    }
  }

  /** Every week whose id the walk collected is free, at or after the start, and reached
      without crossing a vacation week. */
  lemma ClaimedIdsReachable(weeks: seq<Week>, start: int)
    requires NoDuplicates(WeekIds(weeks)) && 0 <= start < |weeks|
    ensures forall k :: 0 <= k < |weeks| && weeks[k].id in ClaimedIds(weeks, start) ==>
      start <= k && Free(weeks[k]) && NoVacationBetween(weeks, start, k)
  {
    ClaimedIdsMatchPositions(weeks, start);
  }

  /** createSprint either fails and changes nothing, or appends the new sprint: its order is
      the old sprint count, its pitch empty, its title the given one when truthy and
      "Sprint n+1" otherwise, its colour the next free one, its year the store's, and it
      holds six distinct week ids. */
  lemma CreateSprintRecord(d: YearData, currentYear: int, startWeekId: string, title: Option<string>, newId: string)
    requires NoDuplicates(WeekIds(d.weeks))
    ensures var (e, r) := CreateSprint(d, currentYear, startWeekId, title, newId);
      && (r.None? ==> e == d)
      && (GetWeek(d, startWeekId).None? ==> r.None?)
      && (r.Some? ==>
            var sprint := r.value;
            && sprint.id == newId && sprint.order == |d.sprints| && sprint.goalPitch == ""
            && sprint.year == currentYear && sprint.colorTheme == GetNextColor(d.sprints)
            && sprint.title == (if Truthy(title) then title.value else "Sprint " + IntToString(|d.sprints| + 1))
            && |sprint.weekIds| == WEEKS_PER_SPRINT && NoDuplicates(sprint.weekIds)
            && e.sprints == d.sprints + [sprint]
            && e.vacationWeekIds == d.vacationWeekIds && e.year == d.year)
  {
    var start := WeekIndex(d.weeks, startWeekId);
    if start != -1 {
      var ids := ClaimedIds(d.weeks, start);
      if |ids| == WEEKS_PER_SPRINT {
        var sprint := NewSprint(d, currentYear, title, newId, ids);
        ClaimedIdsMatchPositions(d.weeks, start);
        hide *;
        AssignAllEffect(AddSprint(d, sprint), ids, Some(newId));
      }
    }
  }

  /** On success, a week gets the new sprint id exactly when its id was claimed; a claimed
      week was free and lies at or after the start with no vacation week from the start up to
      it; no other week changes. */
  lemma CreateSprintWeeks(d: YearData, currentYear: int, startWeekId: string, title: Option<string>, newId: string)
    requires NoDuplicates(WeekIds(d.weeks))
    ensures var (e, r) := CreateSprint(d, currentYear, startWeekId, title, newId);
      r.Some? ==>
        var sprint := r.value;
        var start := WeekIndex(d.weeks, startWeekId);
        && |e.weeks| == |d.weeks|
        && (forall k :: 0 <= k < |d.weeks| && d.weeks[k].id in sprint.weekIds ==>
              && start <= k && Free(d.weeks[k]) && NoVacationBetween(d.weeks, start, k)
              && e.weeks[k] == d.weeks[k].(sprintId := Some(newId)))
        && (forall k :: 0 <= k < |d.weeks| && d.weeks[k].id !in sprint.weekIds ==> e.weeks[k] == d.weeks[k])
  {
    hide GetNextColor, IntToString, Claim, IdsAt, ClaimedIds, AssignAll, Free, NoVacationBetween;
    var start := WeekIndex(d.weeks, startWeekId);
    if start != -1 {
      var ids := ClaimedIds(d.weeks, start);
      if |ids| == WEEKS_PER_SPRINT {
        var sprint := NewSprint(d, currentYear, title, newId, ids);
        assert sprint.weekIds == ids;
        assert CreateSprint(d, currentYear, startWeekId, title, newId) ==
          (AssignAll(AddSprint(d, sprint), ids, Some(newId)), Some(sprint));
        ClaimedIdsReachable(d.weeks, start);
        AssignAllEffect(AddSprint(d, sprint), ids, Some(newId));
        hide *;
      }
    }
  }

  /** On success the sprint lists its weeks in the order they appear in the year. */
  lemma CreateSprintInListOrder(d: YearData, currentYear: int, startWeekId: string, title: Option<string>, newId: string)
    requires NoDuplicates(WeekIds(d.weeks))
    ensures var r := CreateSprint(d, currentYear, startWeekId, title, newId).1;
      r.Some? ==>
        && (forall a :: 0 <= a < |r.value.weekIds| ==> 0 <= WeekIndex(d.weeks, r.value.weekIds[a]))
        && (forall a, b :: 0 <= a < b < |r.value.weekIds| ==>
              WeekIndex(d.weeks, r.value.weekIds[a]) < WeekIndex(d.weeks, r.value.weekIds[b]))
  {
    var r := CreateSprint(d, currentYear, startWeekId, title, newId).1;
    CreateSprintListsClaimed(d, currentYear, startWeekId, title, newId);
    if r.Some? {
      var start := WeekIndex(d.weeks, startWeekId);
      hide *;
      ClaimedIdsInListOrder(d.weeks, start);
    }
  }

  /** createSprint succeeds exactly when the start week is known and the walk from it collects
      six ids, and the new sprint then lists exactly those ids. */
  lemma CreateSprintListsClaimed(d: YearData, currentYear: int, startWeekId: string, title: Option<string>, newId: string)
    ensures var r := CreateSprint(d, currentYear, startWeekId, title, newId).1;
      var start := WeekIndex(d.weeks, startWeekId);
      && (r.Some? <==> 0 <= start < |d.weeks| && |ClaimedIds(d.weeks, start)| == WEEKS_PER_SPRINT)
      && (r.Some? ==> 0 <= start < |d.weeks| && r.value.weekIds == ClaimedIds(d.weeks, start))
  {
    hide GetNextColor, IntToString, Claim, IdsAt, ClaimedIds, AssignAll, Free, NoVacationBetween;
  }

  /** The walk collects ids of the year's weeks, in the order the weeks appear. */
  lemma ClaimedIdsInListOrder(weeks: seq<Week>, start: int)
    requires NoDuplicates(WeekIds(weeks)) && 0 <= start < |weeks|
    ensures var ids := ClaimedIds(weeks, start);
      && (forall a :: 0 <= a < |ids| ==> 0 <= WeekIndex(weeks, ids[a]))
      && (forall a, b :: 0 <= a < b < |ids| ==> WeekIndex(weeks, ids[a]) < WeekIndex(weeks, ids[b]))
  {
    ClaimedIdsMatchPositions(weeks, start);
  }

  /** createSprint with an id no sprint has keeps the year consistent. */
  lemma CreateSprintPreservesValid(d: YearData, currentYear: int, startWeekId: string, title: Option<string>, newId: string)
    requires Valid(d) && newId !in SprintIds(d.sprints)
    ensures Valid(CreateSprint(d, currentYear, startWeekId, title, newId).0)
  {
    var (e, r) := CreateSprint(d, currentYear, startWeekId, title, newId);
    CreateSprintClaims(d, currentYear, startWeekId, title, newId);
    hide *;
    if r.Some? {
      ClaimKeepsValid(d, e, r.value);
    }
  }

  /** A successful createSprint with a fresh id is a claim of free weeks. */
  lemma CreateSprintClaims(d: YearData, currentYear: int, startWeekId: string, title: Option<string>, newId: string)
    requires NoDuplicates(WeekIds(d.weeks)) && newId !in SprintIds(d.sprints)
    ensures var (e, r) := CreateSprint(d, currentYear, startWeekId, title, newId);
      r.None? || ClaimOutcome(d, e, r.value)
  {
    var (e, r) := CreateSprint(d, currentYear, startWeekId, title, newId);
    CreateSprintRecord(d, currentYear, startWeekId, title, newId);
    CreateSprintWeeks(d, currentYear, startWeekId, title, newId);
    CreateSprintInListOrder(d, currentYear, startWeekId, title, newId);
    hide CreateSprint, NewSprint, GetNextColor, IntToString, Claim, IdsAt, ClaimedIds, AssignAll,
      Free, NoVacationBetween, WeekIndex, NoDuplicates;
  }

  /** The year `e` is `d` with `sprint` appended under a fresh id and the sprint id set on
      exactly the weeks it lists, all of which exist and were free. */
  ghost predicate ClaimOutcome(d: YearData, e: YearData, sprint: Sprint)
  {
    && sprint.id !in SprintIds(d.sprints)
    && e.sprints == d.sprints + [sprint] && e.vacationWeekIds == d.vacationWeekIds
    && |e.weeks| == |d.weeks|
    && (forall a :: 0 <= a < |sprint.weekIds| ==> 0 <= WeekIndex(d.weeks, sprint.weekIds[a]))
    && (forall k :: 0 <= k < |d.weeks| && d.weeks[k].id in sprint.weekIds ==>
          Free(d.weeks[k]) && e.weeks[k] == d.weeks[k].(sprintId := Some(sprint.id)))
    && (forall k :: 0 <= k < |d.weeks| && d.weeks[k].id !in sprint.weekIds ==> e.weeks[k] == d.weeks[k])
  }

  /** Claiming free weeks for a new sprint keeps the year consistent. */
  lemma ClaimKeepsValid(d: YearData, e: YearData, sprint: Sprint)
    requires Valid(d) && ClaimOutcome(d, e, sprint)
    ensures Valid(e)
  {
    ClaimKeepsVacationIndex(d, e, sprint);
    ClaimKeepsSprintIds(d, e, sprint);
    ClaimKeepsForwardLinks(d, e, sprint);
    ClaimKeepsBackLinks(d, e, sprint);
    hide IsVacationWeek, OwnedBy, ListedBySprint, ClaimOutcome, VacationIndexed;
  }

  /** ... the vacation index, since flags are untouched and only free weeks gain a sprint; */
  lemma ClaimKeepsVacationIndex(d: YearData, e: YearData, sprint: Sprint)
    requires Valid(d) && ClaimOutcome(d, e, sprint)
    ensures WeekIds(e.weeks) == WeekIds(d.weeks) && VacationIndexed(e)
  {
    assert WeekIds(e.weeks) == WeekIds(d.weeks);
    forall id ensures IsVacationWeek(e.weeks, id) == IsVacationWeek(d.weeks, id) {
      if IsVacationWeek(e.weeks, id) {
        var k :| 0 <= k < |e.weeks| && e.weeks[k].id == id && e.weeks[k].isVacation;
        assert d.weeks[k].id == id && d.weeks[k].isVacation;
      }
      if IsVacationWeek(d.weeks, id) {
        var k :| 0 <= k < |d.weeks| && d.weeks[k].id == id && d.weeks[k].isVacation;
        assert e.weeks[k].id == id && e.weeks[k].isVacation;
      }
    }
  }

  /** ... the distinct sprint ids; */
  lemma ClaimKeepsSprintIds(d: YearData, e: YearData, sprint: Sprint)
    requires Valid(d) && ClaimOutcome(d, e, sprint)
    ensures NoDuplicates(SprintIds(e.sprints))
  {
    var n := |d.sprints|;
    forall a, b | 0 <= a < b < |e.sprints| ensures SprintIds(e.sprints)[a] != SprintIds(e.sprints)[b] {
      if b == n {
        assert SprintIds(d.sprints)[a] == e.sprints[a].id;
      } else {
        assert SprintIds(d.sprints)[a] != SprintIds(d.sprints)[b];
      }
    }
  }

  /** ... every listed week pointing back to its sprint; */
  lemma ClaimKeepsForwardLinks(d: YearData, e: YearData, sprint: Sprint)
    requires Valid(d) && ClaimOutcome(d, e, sprint)
    ensures forall t, j :: 0 <= t < |e.sprints| && 0 <= j < |e.sprints[t].weekIds| ==>
      OwnedBy(e.weeks, e.sprints[t].weekIds[j], e.sprints[t].id)
  {
    var n := |d.sprints|;
    forall t, j | 0 <= t < |e.sprints| && 0 <= j < |e.sprints[t].weekIds|
      ensures OwnedBy(e.weeks, e.sprints[t].weekIds[j], e.sprints[t].id)
    {
      var w := e.sprints[t].weekIds[j];
      if t == n {
        var k := WeekIndex(d.weeks, w);
        assert e.weeks[k].id == w && e.weeks[k].sprintId == Some(sprint.id);
      } else {
        assert OwnedBy(d.weeks, w, d.sprints[t].id);
        var k :| 0 <= k < |d.weeks| && d.weeks[k].id == w && d.weeks[k].sprintId == Some(d.sprints[t].id);
        assert e.weeks[k] == d.weeks[k];
      }
    }
  }

  /** ... and every sprint-owned week being listed by its sprint. */
  lemma ClaimKeepsBackLinks(d: YearData, e: YearData, sprint: Sprint)
    requires Valid(d) && ClaimOutcome(d, e, sprint)
    ensures forall k :: 0 <= k < |e.weeks| && e.weeks[k].sprintId.Some? ==>
      ListedBySprint(e.sprints, e.weeks[k].sprintId.value, e.weeks[k].id)
  {
    var n := |d.sprints|;
    forall k | 0 <= k < |e.weeks| && e.weeks[k].sprintId.Some?
      ensures ListedBySprint(e.sprints, e.weeks[k].sprintId.value, e.weeks[k].id)
    {
      if d.weeks[k].id in sprint.weekIds {
        assert e.sprints[n] == sprint;
      } else {
        assert e.weeks[k] == d.weeks[k];
        var t :| 0 <= t < n && d.sprints[t].id == d.weeks[k].sprintId.value && d.weeks[k].id in d.sprints[t].weekIds;
        assert e.sprints[t] == d.sprints[t];
      }
    }
  }

  /** deleteSprint of an unknown id changes nothing; otherwise every week the sprint lists
      loses its sprint id (vacation flags and tasks stay), no other week changes, and the
      sprint is removed from the list. */
  lemma DeleteSprintEffect(d: YearData, sprintId: string)
    requires NoDuplicates(WeekIds(d.weeks))
    ensures var e := DeleteSprint(d, sprintId);
      && (GetSprint(d, sprintId).None? ==> e == d)
      && (GetSprint(d, sprintId).Some? ==>
            var sprint := GetSprint(d, sprintId).value;
            && e.vacationWeekIds == d.vacationWeekIds && e.year == d.year
            && e.sprints == RemoveAt(d.sprints, SprintIndex(d.sprints, sprintId))
            && |e.weeks| == |d.weeks|
            && forall k :: 0 <= k < |d.weeks| ==>
                 e.weeks[k] == if d.weeks[k].id in sprint.weekIds then d.weeks[k].(sprintId := None) else d.weeks[k])
  {
    match GetSprint(d, sprintId)
    case None =>
    case Some(sprint) =>
      AssignAllEffect(d, sprint.weekIds, None);
  }

  /** deleteSprint keeps the year consistent. */
  lemma DeleteSprintPreservesValid(d: YearData, sprintId: string)
    requires Valid(d)
    ensures Valid(DeleteSprint(d, sprintId))
  {
    DeleteSprintEffect(d, sprintId);
    var e := DeleteSprint(d, sprintId);
    var i := SprintIndex(d.sprints, sprintId);
    if i != -1 {
      assert ReleaseOutcome(d, e, i);
      hide *;
      ReleaseKeepsValid(d, e, i);
    }
  }

  /** The year `e` is `d` with the sprint at position `i` removed and the sprint id cleared
      on exactly the weeks it lists. */
  ghost predicate ReleaseOutcome(d: YearData, e: YearData, i: int)
  {
    && 0 <= i < |d.sprints|
    && e.sprints == RemoveAt(d.sprints, i) && e.vacationWeekIds == d.vacationWeekIds
    && |e.weeks| == |d.weeks|
    && forall k :: 0 <= k < |d.weeks| ==>
         e.weeks[k] == if d.weeks[k].id in d.sprints[i].weekIds then d.weeks[k].(sprintId := None) else d.weeks[k]
  }

  /** Removing a sprint and releasing its weeks keeps the year consistent. */
  lemma ReleaseKeepsValid(d: YearData, e: YearData, i: int)
    requires Valid(d) && ReleaseOutcome(d, e, i)
    ensures Valid(e)
  {
    ReleaseKeepsVacationIndex(d, e, i);
    ReleaseKeepsSprintIds(d, e, i);
    ReleaseKeepsForwardLinks(d, e, i);
    ReleaseKeepsBackLinks(d, e, i);
    hide IsVacationWeek, OwnedBy, ListedBySprint, ReleaseOutcome, VacationIndexed;
  }

  /** ... the vacation index, since flags are untouched and weeks only lose a sprint; */
  lemma ReleaseKeepsVacationIndex(d: YearData, e: YearData, i: int)
    requires Valid(d) && ReleaseOutcome(d, e, i)
    ensures WeekIds(e.weeks) == WeekIds(d.weeks) && VacationIndexed(e)
  {
    assert WeekIds(e.weeks) == WeekIds(d.weeks);
    forall id ensures IsVacationWeek(e.weeks, id) == IsVacationWeek(d.weeks, id) {
      if IsVacationWeek(e.weeks, id) {
        var k :| 0 <= k < |e.weeks| && e.weeks[k].id == id && e.weeks[k].isVacation;
        assert d.weeks[k].id == id && d.weeks[k].isVacation;
      }
      if IsVacationWeek(d.weeks, id) {
        var k :| 0 <= k < |d.weeks| && d.weeks[k].id == id && d.weeks[k].isVacation;
        assert e.weeks[k].id == id && e.weeks[k].isVacation;
      }
    }
  }

  /** ... the distinct sprint ids; */
  lemma ReleaseKeepsSprintIds(d: YearData, e: YearData, i: int)
    requires Valid(d) && ReleaseOutcome(d, e, i)
    ensures NoDuplicates(SprintIds(e.sprints))
  {
    forall a, b | 0 <= a < b < |e.sprints| ensures SprintIds(e.sprints)[a] != SprintIds(e.sprints)[b] {
      var a' := if a < i then a else a + 1;
      var b' := if b < i then b else b + 1;
      assert SprintIds(d.sprints)[a'] != SprintIds(d.sprints)[b'];
    }
  }

  /** ... the links of the remaining sprints, whose weeks are not the removed sprint's; */
  lemma ReleaseKeepsForwardLinks(d: YearData, e: YearData, i: int)
    requires Valid(d) && ReleaseOutcome(d, e, i)
    ensures forall t, j :: 0 <= t < |e.sprints| && 0 <= j < |e.sprints[t].weekIds| ==>
      OwnedBy(e.weeks, e.sprints[t].weekIds[j], e.sprints[t].id)
  {
    forall t, j | 0 <= t < |e.sprints| && 0 <= j < |e.sprints[t].weekIds|
      ensures OwnedBy(e.weeks, e.sprints[t].weekIds[j], e.sprints[t].id)
    {
      var t' := if t < i then t else t + 1;
      var w := e.sprints[t].weekIds[j];
      assert e.sprints[t] == d.sprints[t'];
      assert OwnedBy(d.weeks, w, d.sprints[t'].id);
      var k :| 0 <= k < |d.weeks| && d.weeks[k].id == w && d.weeks[k].sprintId == Some(d.sprints[t'].id);
      OtherSprintsWeeksStay(d, i, t', j);
      assert e.weeks[k] == d.weeks[k];
    }
  }

  /** ... and the back links of weeks that keep a sprint, which is not the removed one. */
  lemma ReleaseKeepsBackLinks(d: YearData, e: YearData, i: int)
    requires Valid(d) && ReleaseOutcome(d, e, i)
    ensures forall k :: 0 <= k < |e.weeks| && e.weeks[k].sprintId.Some? ==>
      ListedBySprint(e.sprints, e.weeks[k].sprintId.value, e.weeks[k].id)
  {
    var gone := d.sprints[i];
    forall k | 0 <= k < |e.weeks| && e.weeks[k].sprintId.Some?
      ensures ListedBySprint(e.sprints, e.weeks[k].sprintId.value, e.weeks[k].id)
    {
      assert d.weeks[k].id !in gone.weekIds;
      assert e.weeks[k] == d.weeks[k];
      var t :| 0 <= t < |d.sprints| && d.sprints[t].id == d.weeks[k].sprintId.value && d.weeks[k].id in d.sprints[t].weekIds;
      assert t != i;
      var t' := if t < i then t else t - 1;
      assert e.sprints[t'] == d.sprints[t];
    }
  }

  /** With distinct week ids a week has at most one owner. */
  lemma OwnerUnique(weeks: seq<Week>, w: string, a: string, b: string)
    requires NoDuplicates(WeekIds(weeks)) && OwnedBy(weeks, w, a) && OwnedBy(weeks, w, b)
    ensures a == b
  {
    var k :| 0 <= k < |weeks| && weeks[k].id == w && weeks[k].sprintId == Some(a);
    var k' :| 0 <= k' < |weeks| && weeks[k'].id == w && weeks[k'].sprintId == Some(b);
    assert WeekIds(weeks)[k] == WeekIds(weeks)[k'];
  }

  /** In a consistent year two different sprints never list the same week. */
  lemma OtherSprintsWeeksStay(d: YearData, i: int, t: int, j: int)
    requires Valid(d) && 0 <= i < |d.sprints| && 0 <= t < |d.sprints| && t != i
    requires 0 <= j < |d.sprints[t].weekIds|
    ensures d.sprints[t].weekIds[j] !in d.sprints[i].weekIds
  {
    var w := d.sprints[t].weekIds[j];
    if w in d.sprints[i].weekIds {
      var j' :| 0 <= j' < |d.sprints[i].weekIds| && d.sprints[i].weekIds[j'] == w;
      OwnerUnique(d.weeks, w, d.sprints[i].id, d.sprints[t].id);
    }
  }

  /** Creating a sprint under a fresh id and deleting it again gives the year back. */
  lemma CreateThenDeleteSprint(d: YearData, currentYear: int, startWeekId: string, title: Option<string>, newId: string)
    requires NoDuplicates(WeekIds(d.weeks)) && newId !in SprintIds(d.sprints)
    ensures DeleteSprint(CreateSprint(d, currentYear, startWeekId, title, newId).0, newId) == d
  {
    var (e, r) := CreateSprint(d, currentYear, startWeekId, title, newId);
    CreateSprintRecord(d, currentYear, startWeekId, title, newId);
    if r.None? {
      forall k | 0 <= k < |d.sprints| ensures d.sprints[k].id != newId {
        assert SprintIds(d.sprints)[k] == d.sprints[k].id;
      }
    } else {
      CreateSprintWeeks(d, currentYear, startWeekId, title, newId);
      hide *;
      ReleaseUndoesClaim(d, e, r.value);
    }
  }

  /** Deleting a sprint that was appended under a fresh id, and that claimed free weeks,
      restores the year it was added to. */
  lemma ReleaseUndoesClaim(d: YearData, e: YearData, sprint: Sprint)
    requires NoDuplicates(WeekIds(d.weeks)) && sprint.id !in SprintIds(d.sprints)
    requires e.sprints == d.sprints + [sprint] && e.vacationWeekIds == d.vacationWeekIds && e.year == d.year
    requires |e.weeks| == |d.weeks|
    requires forall k :: 0 <= k < |d.weeks| && d.weeks[k].id in sprint.weekIds ==>
      Free(d.weeks[k]) && e.weeks[k] == d.weeks[k].(sprintId := Some(sprint.id))
    requires forall k :: 0 <= k < |d.weeks| && d.weeks[k].id !in sprint.weekIds ==> e.weeks[k] == d.weeks[k]
    ensures DeleteSprint(e, sprint.id) == d
  {
    var n := |d.sprints|;
    forall k | 0 <= k < n ensures e.sprints[k].id != sprint.id {
      assert SprintIds(d.sprints)[k] == e.sprints[k].id;
    }
    assert e.sprints[n] == sprint;
    assert SprintIndex(e.sprints, sprint.id) == n;
    assert GetSprint(e, sprint.id) == Some(sprint);
    assert WeekIds(e.weeks) == WeekIds(d.weeks);
    DeleteSprintEffect(e, sprint.id);
    var f := DeleteSprint(e, sprint.id);
    assert f.weeks == d.weeks;
    assert f.sprints == d.sprints;
  }

  /** updateSprint never touches an id or a week list, so it keeps the year consistent. */
  lemma UpdateSprintPreservesValid(d: YearData, sprintId: string, u: SprintSettings)
    requires Valid(d)
    ensures var e := UpdateSprint(d, sprintId, u);
      && Valid(e) && e.weeks == d.weeks && e.vacationWeekIds == d.vacationWeekIds
      && |e.sprints| == |d.sprints|
      && forall t :: 0 <= t < |d.sprints| ==>
           e.sprints[t].id == d.sprints[t].id && e.sprints[t].weekIds == d.sprints[t].weekIds
  {
    var e := UpdateSprint(d, sprintId, u);
    assert e.weeks == d.weeks && e.vacationWeekIds == d.vacationWeekIds && |e.sprints| == |d.sprints|;
    assert forall t :: 0 <= t < |d.sprints| ==>
      e.sprints[t].id == d.sprints[t].id && e.sprints[t].weekIds == d.sprints[t].weekIds;
    hide *;
    SameLinksValid(d, e);
  }

  /** A year whose weeks, vacation list, sprint ids and sprint week lists are those of a
      consistent year is consistent. */
  lemma SameLinksValid(d: YearData, e: YearData)
    requires Valid(d)
    requires e.weeks == d.weeks && e.vacationWeekIds == d.vacationWeekIds && |e.sprints| == |d.sprints|
    requires forall t :: 0 <= t < |d.sprints| ==>
      e.sprints[t].id == d.sprints[t].id && e.sprints[t].weekIds == d.sprints[t].weekIds
    ensures Valid(e)
  {
    assert SprintIds(e.sprints) == SprintIds(d.sprints);
    forall k | 0 <= k < |e.weeks| && e.weeks[k].sprintId.Some?
      ensures ListedBySprint(e.sprints, e.weeks[k].sprintId.value, e.weeks[k].id)
    {
      var t :| 0 <= t < |d.sprints| && d.sprints[t].id == d.weeks[k].sprintId.value && d.weeks[k].id in d.sprints[t].weekIds;
      assert e.sprints[t].id == d.sprints[t].id && e.sprints[t].weekIds == d.sprints[t].weekIds;
    }
  }
}
