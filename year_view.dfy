// The year overview (src/components/YearView.tsx): unassigned and vacation weeks are
// cut into runs of consecutive week numbers, and those runs and the sprints are laid
// out in one list ordered by first week number.

module YearView {
  import opened Types
  import opened Lists
  import opened Sorting
  import opened Allocation
  import opened SprintPlan

  // ---------------------------------------------------------------------------
  // groupConsecutiveWeeks

  /** The groups laid end to end. */
  function Flatten(groups: seq<seq<Week>>): seq<Week>
  {
    if groups == [] then []
    else Flatten(groups[..|groups| - 1]) + groups[|groups| - 1]
  }

  /** Each week number is the previous one plus one. */
  predicate Run(g: seq<Week>)
  {
    forall i :: 0 < i < |g| ==> g[i].weekNumber == g[i - 1].weekNumber + 1
  }

  /** No group could be joined to the one before it: the number sequence breaks in between. */
  predicate Breaks(groups: seq<seq<Week>>)
  {
    forall k :: 0 < k < |groups| && groups[k - 1] != [] && groups[k] != [] ==>
      groups[k][0].weekNumber != groups[k - 1][|groups[k - 1]| - 1].weekNumber + 1
  }

  /** The groups `groupConsecutiveWeeks` returns, built one week at a time: a week extends the
      last group when its number follows the previous week's, and opens a new group otherwise. */
  function Groups(weeks: seq<Week>): seq<seq<Week>>
  {
    if weeks == [] then []
    else
      var init := Groups(weeks[..|weeks| - 1]);
      var w := weeks[|weeks| - 1];
      if init == [] then [[w]]
      else if |weeks| >= 2 && w.weekNumber == weeks[|weeks| - 2].weekNumber + 1 then
        init[..|init| - 1] + [init[|init| - 1] + [w]]
      else init + [[w]]
  }

  /** Appending a group appends its weeks. */
  lemma FlattenSnoc(groups: seq<seq<Week>>, g: seq<Week>)
    ensures Flatten(groups + [g]) == Flatten(groups) + g
  {
    assert (groups + [g])[..|groups|] == groups;
  }

  /** One more week extends the last group or opens a new one. */
  lemma GroupsSnoc(prefix: seq<Week>, w: Week)
    ensures var init := Groups(prefix);
      Groups(prefix + [w]) ==
        if init == [] then [[w]]
        else if |prefix| >= 1 && w.weekNumber == prefix[|prefix| - 1].weekNumber + 1 then
          init[..|init| - 1] + [init[|init| - 1] + [w]]
        else init + [[w]]
  {
    assert (prefix + [w])[..|prefix|] == prefix;
  }

  /** Laid end to end, the groups give the list back; there are none exactly for no weeks. */
  lemma {:induction false} GroupsFlatten(weeks: seq<Week>)
    ensures Flatten(Groups(weeks)) == weeks
    ensures Groups(weeks) == [] <==> weeks == []
  {
    if weeks != [] {
      var prefix := weeks[..|weeks| - 1];
      var w := weeks[|weeks| - 1];
      assert weeks == prefix + [w];
      GroupsFlatten(prefix);
      GroupsSnoc(prefix, w);
      var init := Groups(prefix);
      hide Groups;
      if init == [] {
        FlattenSnoc([], [w]);
      } else {
        var m := |init|;
        var last := init[m - 1];
        assert init == init[..m - 1] + [last];
        FlattenSnoc(init[..m - 1], last);
        FlattenSnoc(init[..m - 1], last + [w]);
        FlattenSnoc(init, [w]);
      }
    }
  }

  /** Every group is a non-empty run of consecutive week numbers. */
  lemma {:induction false} GroupsAreRuns(weeks: seq<Week>)
    ensures forall k :: 0 <= k < |Groups(weeks)| ==> Groups(weeks)[k] != [] && Run(Groups(weeks)[k])
  {
    if weeks != [] {
      var prefix := weeks[..|weeks| - 1];
      var w := weeks[|weeks| - 1];
      assert weeks == prefix + [w];
      GroupsAreRuns(prefix);
      GroupsSnoc(prefix, w);
      GroupsFlatten(prefix);
      var init: seq<seq<Week>> := Groups(prefix);
      var gs: seq<seq<Week>> := Groups(weeks);
      if init != [] {
        FlattenLast(init);
      }
      hide Groups, Flatten;
      forall k | 0 <= k < |gs| ensures gs[k] != [] && Run(gs[k]) {
        if k < |init| - 1 {
          assert gs[k] == init[k];
        } else if init == [] {
          assert gs[k] == [w];
        } else if |prefix| >= 1 && w.weekNumber == prefix[|prefix| - 1].weekNumber + 1 {
          var last := init[|init| - 1];
          assert gs[k] == last + [w];
          assert Run(last);
        } else if k < |init| {
          assert gs[k] == init[k];
        } else {
          assert gs[k] == [w];
        }
      }
    }
  }

  /** Consecutive groups are separated by a break in the numbering, so no two could merge. */
  lemma {:induction false} GroupsBreak(weeks: seq<Week>)
    ensures Breaks(Groups(weeks))
  {
    if weeks != [] {
      var prefix := weeks[..|weeks| - 1];
      var w := weeks[|weeks| - 1];
      assert weeks == prefix + [w];
      GroupsBreak(prefix);
      GroupsSnoc(prefix, w);
      var init: seq<seq<Week>> := Groups(prefix);
      var gs: seq<seq<Week>> := Groups(weeks);
      if prefix != [] {
        LastGroupEndsList(prefix);
        hide Groups, Breaks;
        var m := |init|;
        if w.weekNumber == prefix[|prefix| - 1].weekNumber + 1 {
          assert gs == init[..m - 1] + [init[m - 1] + [w]];
          BreaksExtended(init, w);
        } else {
          assert gs == init + [[w]];
          BreaksAppended(init, w);
        }
      }
    }
  }

  /** The last group of a non-empty list is non-empty and ends with the list's last week. */
  lemma LastGroupEndsList(weeks: seq<Week>)
    requires weeks != []
    ensures var gs := Groups(weeks);
      gs != [] && gs[|gs| - 1] != [] && gs[|gs| - 1][|gs[|gs| - 1]| - 1] == weeks[|weeks| - 1]
  {
    GroupsFlatten(weeks);
    GroupsAreRuns(weeks);
    var gs: seq<seq<Week>> := Groups(weeks);
    FlattenLast(gs);
  }

  /** Extending the last group at its end keeps every break. */
  lemma BreaksExtended(init: seq<seq<Week>>, w: Week)
    requires Breaks(init) && init != [] && init[|init| - 1] != []
    ensures Breaks(init[..|init| - 1] + [init[|init| - 1] + [w]])
  {
    var m := |init|;
    var gs: seq<seq<Week>> := init[..m - 1] + [init[m - 1] + [w]];
    forall k | 0 < k < |gs| && gs[k - 1] != [] && gs[k] != []
      ensures gs[k][0].weekNumber != gs[k - 1][|gs[k - 1]| - 1].weekNumber + 1
    {
      assert gs[k][0] == init[k][0];
      assert gs[k - 1] == init[k - 1];
    }
  }

  /** A new group that does not continue the last one keeps every break. */
  lemma BreaksAppended(init: seq<seq<Week>>, w: Week)
    requires Breaks(init) && init != []
    requires var last := init[|init| - 1];
      last != [] && w.weekNumber != last[|last| - 1].weekNumber + 1
    ensures Breaks(init + [[w]])
  {
    var gs: seq<seq<Week>> := init + [[w]];
    forall k | 0 < k < |gs| && gs[k - 1] != [] && gs[k] != []
      ensures gs[k][0].weekNumber != gs[k - 1][|gs[k - 1]| - 1].weekNumber + 1
    {
      assert gs[k - 1] == init[k - 1];
      if k < |init| {
        assert gs[k] == init[k];
      }
    }
  }

  /** The last week of the flattened groups is the last week of the last group. */
  lemma FlattenLast(groups: seq<seq<Week>>)
    requires groups != [] && groups[|groups| - 1] != []
    ensures var f := Flatten(groups); var g := groups[|groups| - 1]; |f| > 0 && f[|f| - 1] == g[|g| - 1]
  {
  }

  /** One turn of the loop of groupConsecutiveWeeks, in terms of the pushed groups and the
      current group. */
  lemma GroupsStep(prefix: seq<Week>, w: Week, groups: seq<seq<Week>>, current: seq<Week>)
    requires current == [] <==> prefix == []
    requires prefix == [] ==> groups == []
    requires Groups(prefix) == if current == [] then groups else groups + [current]
    ensures prefix == [] ==> Groups(prefix + [w]) == [[w]]
    ensures prefix != [] && w.weekNumber == prefix[|prefix| - 1].weekNumber + 1 ==>
      Groups(prefix + [w]) == groups + [current + [w]]
    ensures prefix != [] && w.weekNumber != prefix[|prefix| - 1].weekNumber + 1 ==>
      Groups(prefix + [w]) == (groups + [current]) + [[w]]
  {
    GroupsSnoc(prefix, w);
    if current != [] {
      assert (groups + [current])[..|groups|] == groups;
    }
  }

  /** `groupConsecutiveWeeks`: a `forEach` that extends the current group or pushes it and
      starts a new one, then pushes the last group. */
  method GroupConsecutiveWeeks(weeks: seq<Week>) returns (groups: seq<seq<Week>>)
    ensures groups == Groups(weeks)
  {
    assert Groups(weeks[..0]) == [];
    hide Groups;
    groups := [];
    var currentGroup: seq<Week> := [];
    var index := 0;
    while index < |weeks|
      invariant 0 <= index <= |weeks|
      invariant currentGroup == [] <==> index == 0
      invariant index == 0 ==> groups == []
      invariant Groups(weeks[..index]) == if currentGroup == [] then groups else groups + [currentGroup]
    {
      var week := weeks[index];
      assert weeks[..index + 1] == weeks[..index] + [week];
      assert index > 0 ==> weeks[..index][index - 1] == weeks[index - 1];
      GroupsStep(weeks[..index], week, groups, currentGroup);
      if |currentGroup| == 0 {
        currentGroup := currentGroup + [week];
      } else {
        var prevWeek := weeks[index - 1];
        if week.weekNumber == prevWeek.weekNumber + 1 {
          currentGroup := currentGroup + [week];
        } else {
          groups := groups + [currentGroup];
          currentGroup := [week];
        }
      }
      index := index + 1;
    }
    assert weeks[..index] == weeks;
    if |currentGroup| > 0 {
      groups := groups + [currentGroup];
    }
  }

  // ---------------------------------------------------------------------------
  // unassignedWeeks, vacationWeeks

  /** `!week.sprintId && !week.isVacation`. */
  function IsUnassigned(w: Week): bool
  {
    !Truthy(w.sprintId) && !w.isVacation
  }

  /** `week.isVacation`. */
  function IsVacation(w: Week): bool
  {
    w.isVacation
  }

  /** `unassignedWeeks`: the weeks in no sprint and not on vacation, in list order. */
  function UnassignedWeeks(weeks: seq<Week>): (r: seq<Week>)
    ensures forall w :: w in r <==> w in weeks && !Truthy(w.sprintId) && !w.isVacation
    ensures forall w :: multiset(r)[w] == if !Truthy(w.sprintId) && !w.isVacation then multiset(weeks)[w] else 0
    ensures IsSubsequence(r, weeks)
  {
    Filter(weeks, IsUnassigned)
  }

  /** `vacationWeeks`: the vacation weeks, in list order. */
  function VacationWeeks(weeks: seq<Week>): (r: seq<Week>)
    ensures forall w :: w in r <==> w in weeks && w.isVacation
    ensures forall w :: multiset(r)[w] == if w.isVacation then multiset(weeks)[w] else 0
    ensures IsSubsequence(r, weeks)
  {
    Filter(weeks, IsVacation)
  }

  /** No week is both unassigned and on vacation, and every week without a sprint is one of
      the two. */
  lemma UnassignedAndVacationSplitFreeWeeks(weeks: seq<Week>, w: Week)
    requires w in weeks
    ensures !(w in UnassignedWeeks(weeks) && w in VacationWeeks(weeks))
    ensures !Truthy(w.sprintId) ==> (w in UnassignedWeeks(weeks) || w in VacationWeeks(weeks))
  {
  }

  // ---------------------------------------------------------------------------
  // orderedSections

  datatype Section =
    | SprintSection(sprint: Sprint)
    | UnassignedSection(weeks: seq<Week>)
    | VacationSection(weeks: seq<Week>)

  /** The sort key: a sprint's first week's number, 0 when the sprint lists no week or its
      first week is not in the year; otherwise the number of the group's first week. */
  function SectionKey(d: YearData, s: Section): int
  {
    match s
    case SprintSection(sprint) =>
      if |sprint.weekIds| == 0 then 0
      else (match GetWeek(d, sprint.weekIds[0])
        case None => 0
        case Some(w) => w.weekNumber)
    case _ => if |s.weeks| > 0 then s.weeks[0].weekNumber else 0
  }

  function KeyIn(d: YearData): Section -> int
  {
    s => SectionKey(d, s)
  }

  /** One section per sprint. */
  function SprintSections(sprints: seq<Sprint>): (r: seq<Section>)
    ensures |r| == |sprints|
    ensures forall k :: 0 <= k < |sprints| ==> r[k] == SprintSection(sprints[k])
  {
    seq(|sprints|, k requires 0 <= k < |sprints| => SprintSection(sprints[k]))
  }

  /** One section per group, unassigned or vacation. */
  function GroupSections(groups: seq<seq<Week>>, vacation: bool): (r: seq<Section>)
    ensures |r| == |groups|
    ensures forall k :: 0 <= k < |groups| ==>
      r[k] == if vacation then VacationSection(groups[k]) else UnassignedSection(groups[k])
  {
    seq(|groups|, k requires 0 <= k < |groups| =>
      if vacation then VacationSection(groups[k]) else UnassignedSection(groups[k]))
  }

  /** The sections before sorting: the sprints in `sortedSprints` order, then the unassigned
      runs, then the vacation runs. */
  function Collected(d: YearData): seq<Section>
  {
    SprintSections(SortedSprints(d))
      + GroupSections(Groups(UnassignedWeeks(d.weeks)), false)
      + GroupSections(Groups(VacationWeeks(d.weeks)), true)
  }

  /** `orderedSections`. */
  method OrderedSections(d: YearData) returns (sections: seq<Section>)
    ensures SortedBy(sections, KeyIn(d))
    ensures multiset(sections) == multiset(Collected(d))
  {
    hide Groups, SortedSprints, UnassignedWeeks, VacationWeeks, Filter, Flatten, Run, SortBy;
    sections := [];
    var sprints := SortedSprints(d);
    var i := 0;
    while i < |sprints|
      invariant 0 <= i <= |sprints|
      invariant sections == SprintSections(sprints[..i])
    {
      sections := sections + [SprintSection(sprints[i])];
      i := i + 1;
    }
    assert sprints[..i] == sprints;

    var unassignedGroups := GroupConsecutiveWeeks(UnassignedWeeks(d.weeks));
    GroupsAreRuns(UnassignedWeeks(d.weeks));
    ghost var base := sections;
    i := 0;
    while i < |unassignedGroups|
      invariant 0 <= i <= |unassignedGroups|
      invariant sections == base + GroupSections(unassignedGroups[..i], false)
    {
      if |unassignedGroups[i]| > 0 {
        sections := sections + [UnassignedSection(unassignedGroups[i])];
      }
      i := i + 1;
    }
    assert unassignedGroups[..i] == unassignedGroups;

    var vacationGroups := GroupConsecutiveWeeks(VacationWeeks(d.weeks));
    GroupsAreRuns(VacationWeeks(d.weeks));
    base := sections;
    i := 0;
    while i < |vacationGroups|
      invariant 0 <= i <= |vacationGroups|
      invariant sections == base + GroupSections(vacationGroups[..i], true)
    {
      if |vacationGroups[i]| > 0 {
        sections := sections + [VacationSection(vacationGroups[i])];
      }
      i := i + 1;
    }
    assert vacationGroups[..i] == vacationGroups;
    assert sections == Collected(d);

    sections := SortBy(sections, KeyIn(d));
  }

  /** Every sprint of the year gets a section. */
  lemma CollectedHasEverySprint(d: YearData, s: Sprint)
    requires s in d.sprints
    ensures SprintSection(s) in Collected(d)
  {
    var sp := SortedSprints(d);
    assert s in multiset(sp);
    var k :| 0 <= k < |sp| && sp[k] == s;
    hide SortedSprints, Groups, UnassignedWeeks, VacationWeeks;
    assert Collected(d)[k] == SprintSection(s);
  }

  /** Every week section holds a non-empty run of consecutive week numbers. */
  lemma CollectedRuns(d: YearData)
    ensures forall k :: 0 <= k < |Collected(d)| && !Collected(d)[k].SprintSection? ==>
      Collected(d)[k].weeks != [] && Run(Collected(d)[k].weeks)
  {
    var ug := Groups(UnassignedWeeks(d.weeks));
    var vg := Groups(VacationWeeks(d.weeks));
    GroupsAreRuns(UnassignedWeeks(d.weeks));
    GroupsAreRuns(VacationWeeks(d.weeks));
    var a := SprintSections(SortedSprints(d));
    assert Collected(d) == a + GroupSections(ug, false) + GroupSections(vg, true);
    hide *;
    SectionsOfRuns(a, ug, vg);
  }

  /** Sections built from non-empty runs hold non-empty runs. */
  lemma SectionsOfRuns(a: seq<Section>, ug: seq<seq<Week>>, vg: seq<seq<Week>>)
    requires forall k :: 0 <= k < |a| ==> a[k].SprintSection?
    requires forall k :: 0 <= k < |ug| ==> ug[k] != [] && Run(ug[k])
    requires forall k :: 0 <= k < |vg| ==> vg[k] != [] && Run(vg[k])
    ensures var c := a + GroupSections(ug, false) + GroupSections(vg, true);
      forall k :: 0 <= k < |c| && !c[k].SprintSection? ==> c[k].weeks != [] && Run(c[k].weeks)
  {
    var b := GroupSections(ug, false);
    var v := GroupSections(vg, true);
    var c := a + b + v;
    forall k | 0 <= k < |c| && !c[k].SprintSection?
      ensures c[k].weeks != [] && Run(c[k].weeks)
    {
      if |a| <= k < |a| + |b| {
        assert c[k] == b[k - |a|];
      } else if |a| + |b| <= k {
        assert c[k] == v[k - |a| - |b|];
      }
    }
  }
}
