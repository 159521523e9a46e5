// The week generator (src/services/YearGenerator.ts): partitions a year into
// Monday-start weeks, week 1 being the week that contains 4 January
// (section 3.2.2 of ISO 8601:2004), and maps a date to a week number and id.
// Every `Date` is a whole day number at local midnight (see module Calendar).

module YearGenerator {
  import opened Types
  import opened Text
  import opened Calendar
  import Allocation

  /** `Math.ceil(a / b)` for a positive divisor. */
  function CeilDiv(a: int, b: int): (q: int)
    requires b > 0
    ensures b * (q - 1) < a <= b * q
  {
    -((-a) / b)
  }

  /** The source's `(getDay() + 6) % 7` is the weekday counted from Monday = 0. */
  lemma MondayIndex(t: int)
    ensures (GetDay(t) + 6) % 7 == t % 7
  {
  }

  /** The Thursday of the Monday-start week containing `date`. */
  function ThursdayOf(date: int): (t: int)
    ensures t % 7 == 3 && date - 3 <= t <= date + 3
  {
    date - date % 7 + 3
  }

  /** The seven days of one Monday-start week share their Thursday. */
  lemma SameWeekSameThursday(monday: int, k: int)
    requires monday % 7 == 0 && 0 <= k < 7
    ensures ThursdayOf(monday + k) == monday + 3
  {
    assert monday + k == 7 * (monday / 7) + k;
  }

  // ---------------------------------------------------------------------------
  // getISOWeekNumber

  /** `getISOWeekNumber`, as written: `1 + ceil((thursday - 4 January of the thursday's year) / 7)`. */
  function GetISOWeekNumber(date: int): int
  {
    var dayNum := (GetDay(date) + 6) % 7;
    var target := SetDate(date, GetDate(date) - dayNum + 3);
    var firstThursday := NewDate(GetFullYear(target), 0, 4);
    var dayOfYear := target - firstThursday;
    1 + CeilDiv(dayOfYear, 7)
  }

  /** What getISOWeekNumber computes once it has reached the Thursday `t`. */
  function NumberFromThursday(t: int): int
  {
    1 + CeilDiv(t - NewDate(GetFullYear(t), 0, 4), 7)
  }

  /** Setting the day of the month back by the Monday-based weekday and on by three lands on
      the Thursday of the week. */
  lemma ThursdayShift(date: int)
    ensures SetDate(date, GetDate(date) - (GetDay(date) + 6) % 7 + 3) == ThursdayOf(date)
  {
    MondayIndex(date);
  }

  /** getISOWeekNumber depends on the date only through the Thursday of its week. */
  lemma GetISOWeekNumberUsesThursday(date: int)
    ensures GetISOWeekNumber(date) == NumberFromThursday(ThursdayOf(date))
  {
    ThursdayShift(date);
  }

  /** All seven days Monday..Sunday of one week get the same number. */
  lemma ISOWeekNumberConstantOnWeek(monday: int, k: int)
    requires monday % 7 == 0 && 0 <= k < 7
    ensures GetISOWeekNumber(monday + k) == GetISOWeekNumber(monday)
  {
    hide *;
    GetISOWeekNumberUsesThursday(monday + k);
    GetISOWeekNumberUsesThursday(monday);
    SameWeekSameThursday(monday, k);
    SameWeekSameThursday(monday, 0);
  }

  /** The number is at least 1, except where JavaScript reads the Thursday's year 0..99 as 19xx. */
  lemma ISOWeekNumberPositive(date: int)
    requires JsYear(GetFullYear(ThursdayOf(date))) == GetFullYear(ThursdayOf(date))
    ensures GetISOWeekNumber(date) >= 1
  {
    GetISOWeekNumberUsesThursday(date);
    var t := ThursdayOf(date);
    assert NewDate(GetFullYear(t), 0, 4) == YearStart(GetFullYear(t)) + 3;
  }

  // ---------------------------------------------------------------------------
  // getWeekStart

  /** `getWeekStart`: the Monday of week `weekNumber` of `year`. */
  function GetWeekStart(year: int, weekNumber: int): int
  {
    var jan4 := NewDate(year, 0, 4);
    var dayOfWeek := (GetDay(jan4) + 6) % 7;
    var week1Monday := SetDate(jan4, GetDate(jan4) - dayOfWeek);
    SetDate(week1Monday, GetDate(week1Monday) + (weekNumber - 1) * 7)
  }

  /** The Monday on or before 4 January: the first day of week 1. */
  function FirstMonday(year: int): int
  {
    var jan4 := NewDate(year, 0, 4);
    jan4 - jan4 % 7
  }

  /** The two setDate steps of getWeekStart, from any anchor date `j`. */
  lemma MondayShift(j: int, n: int)
    ensures var m := SetDate(j, GetDate(j) - (GetDay(j) + 6) % 7);
      SetDate(m, GetDate(m) + (n - 1) * 7) == j - j % 7 + 7 * (n - 1)
  {
    MondayIndex(j);
  }

  /** Week `n` starts `7 * (n - 1)` days after week 1's Monday. */
  lemma WeekStartFormula(year: int, n: int)
    ensures GetWeekStart(year, n) == FirstMonday(year) + 7 * (n - 1)
  {
    MondayShift(NewDate(year, 0, 4), n);
  }

  /** Week 1's Monday is a Monday between 29 December of the year before and 4 January. */
  lemma FirstMondayBounds(year: int)
    ensures var m := FirstMonday(year);
      && m % 7 == 0
      && DayNumber(JsYear(year) - 1, 12, 29) <= m <= NewDate(year, 0, 4)
      && m == GetWeekStart(year, 1)
  {
    hide GetWeekStart;
    hide CivilOf;
    YearStartStep(JsYear(year) - 1);
    WeekStartFormula(year, 1);
  }

  /** Consecutive weeks start seven days apart. */
  lemma WeekStartsSevenApart(year: int, n: int)
    ensures GetWeekStart(year, n + 1) == GetWeekStart(year, n) + 7
  {
    WeekStartFormula(year, n);
    WeekStartFormula(year, n + 1);
  }

  /** Every week starts on a Monday. */
  lemma WeekStartIsMonday(year: int, n: int)
    ensures GetWeekStart(year, n) % 7 == 0
  {
    WeekStartFormula(year, n);
    FirstMondayBounds(year);
    MultipleOfSeven(FirstMonday(year), n - 1);
  }

  lemma MultipleOfSeven(m: int, k: int)
    requires m % 7 == 0
    ensures (m + 7 * k) % 7 == 0
  {
    assert m + 7 * k == 7 * (m / 7 + k);
  }

  // ---------------------------------------------------------------------------
  // generateWeek

  /** The week id `{year}-W{nn}`. */
  function WeekId(year: int, weekNumber: int): string
  {
    IntToString(year) + "-W" + PadStart2(IntToString(weekNumber))
  }

  /** Week ids of one year are distinct for week numbers 0..99. */
  lemma WeekIdInjective(year: int, a: int, b: int)
    requires 0 <= a < 100 && 0 <= b < 100 && a != b
    ensures WeekId(year, a) != WeekId(year, b)
  {
    var p := IntToString(year) + "-W";
    if WeekId(year, a) == WeekId(year, b) {
      Pad2Digits(a);
      Pad2Digits(b);
      assert WeekId(year, a)[|p|..] == PadStart2(NatToString(a));
      assert WeekId(year, b)[|p|..] == PadStart2(NatToString(b));
      Pad2Injective(a, b);
    }
  }

  /** `generateWeek`. */
  function GenerateWeek(year: int, weekNumber: int): Week
  {
    var startDate := GetWeekStart(year, weekNumber);
    var endDate := SetDate(startDate, GetDate(startDate) + 6);
    Week(
      id := WeekId(year, weekNumber),
      weekNumber := weekNumber,
      year := year,
      startDate := FormatDate(startDate),
      endDate := FormatDate(endDate),
      isVacation := false,
      sprintId := None,
      tasks := [],
      order := weekNumber)
  }

  /** What generateWeek promises besides the dates. */
  predicate GenerateWeekFields(year: int, n: int)
  {
    var w := GenerateWeek(year, n);
    && w.weekNumber == n && w.order == n && w.year == year && w.id == WeekId(year, n)
    && !w.isVacation && w.sprintId == None && w.tasks == []
  }

  lemma GenerateWeekFieldsHold(year: int, n: int)
    ensures GenerateWeekFields(year, n)
  {
  }

  /** A generated week runs Monday to Sunday: it starts on the Monday `7 * (n - 1)` days after
      week 1's Monday and ends six days later. */
  lemma GeneratedWeekDates(year: int, n: int)
    ensures var w, s := GenerateWeek(year, n), FirstMonday(year) + 7 * (n - 1);
      && w.startDate == FormatDate(s)
      && w.endDate == FormatDate(s + 6)
      && s % 7 == 0
  {
    hide GetWeekStart;
    hide CivilOf;
    hide FormatDate;
    WeekStartFormula(year, n);
    WeekStartIsMonday(year, n);
    SetDateShift(GetWeekStart(year, n), 6);
  }

  // ---------------------------------------------------------------------------
  // getWeeksInYear

  /** `getWeeksInYear`, as written, including its 31 December test. */
  function GetWeeksInYear(year: int): (n: int)
    ensures n == 52 || n == 53
  {
    var jan1 := NewDate(year, 0, 1);
    var jan1Day := GetDay(jan1);
    var isLeap := IsLeapYear(year);
    if jan1Day == 4 || (isLeap && jan1Day == 3) then 53
    else
      var dec31 := NewDate(year, 11, 31);
      var dec31Day := GetDay(dec31);
      if dec31Day == 4 || (isLeap && dec31Day == 5) then 53 else 52
  }

  /** The weekday `k` days later. */
  lemma WeekdayAfter(j: int, k: int)
    ensures GetDay(j + k) == (GetDay(j) + k) % 7
  {
    assert j == 7 * (j / 7) + j % 7;
  }

  /** For a year of 365 or 366 days, the 31 December test only repeats the 1 January test. */
  lemma DecemberTestRedundant(d1: int, leap: bool)
    requires 0 <= d1 < 7
    ensures var d31 := (d1 + (if leap then 365 else 364)) % 7;
      (d31 == 4 || (leap && d31 == 5)) ==> (d1 == 4 || (leap && d1 == 3))
  {
  }

  /** JavaScript's years 1..99 are 1901..1999, which are leap exactly when the written year is. */
  lemma LeapOfJsYear(year: int)
    requires 1 <= year <= 99
    ensures IsLeapYear(1900 + year) == IsLeapYear(year)
  {
    assert (1900 + year) % 4 == year % 4;
    assert (1900 + year) % 100 == year;
  }

  /** Outside year 0 (read as 1900), the year JavaScript builds is leap exactly when the
      written year is. */
  lemma JsYearLeap(year: int)
    requires year != 0
    ensures IsLeapYear(JsYear(year)) == IsLeapYear(year)
  {
    if 1 <= year <= 99 {
      LeapOfJsYear(year);
    }
  }

  /** 31 December lies a year length less one day after 1 January. */
  lemma YearSpan(year: int)
    ensures NewDate(year, 11, 31) == NewDate(year, 0, 1) + YearLength(JsYear(year)) - 1
  {
  }

  /** `new Date(0, 0, 1)` is 1 January 1900, a Monday, in a year of 365 days. */
  lemma Jan1OfYearZeroIsMonday(year: int)
    requires year == 0
    ensures GetDay(NewDate(year, 0, 1)) == 1 && YearLength(JsYear(year)) == 365
  {
    var y := JsYear(year);
    assert y == 1900;
    YearStartIsClosedForm(y);
    assert NewDate(year, 0, 1) == 693966;
  }

  /** 53 weeks exactly when 1 January is a Thursday, or a Wednesday in a leap year:
      the 31 December test never adds a year. */
  lemma WeeksInYearRule(year: int)
    ensures var jan1Day := GetDay(NewDate(year, 0, 1));
      GetWeeksInYear(year) == 53 <==> jan1Day == 4 || (IsLeapYear(year) && jan1Day == 3)
  {
    hide NewDate, DayNumber, YearStart, JsYear;
    var jan1 := NewDate(year, 0, 1);
    var len := YearLength(JsYear(year));
    YearSpan(year);
    WeekdayAfter(jan1, len - 1);
    if year == 0 {
      Jan1OfYearZeroIsMonday(year);
    } else {
      JsYearLeap(year);
      DecemberTestRedundant(GetDay(jan1), IsLeapYear(year));
    }
  }

  /** The day after the last week of a year whose 4 January is day `j` is the next year's
      first Monday. */
  lemma TileArith(j: int, leap: bool)
    ensures var len := if leap then 366 else 365;
      var d1 := GetDay(j - 3);
      var weeks := if d1 == 4 || (leap && d1 == 3) then 53 else 52;
      (j + len) - (j + len) % 7 == j - j % 7 + 7 * weeks
  {
    var q, r := j / 7, j % 7;
    assert j == 7 * q + r;
    assert j - 3 == 7 * (q - 1) + (r + 4);
  }

  /** Weeks of consecutive years tile the calendar: week 1 of `year + 1` starts right after the
      last generated week of `year`. (JavaScript reads the years 0..99 as 1900..1999, hence the bound.) */
  lemma YearsTile(year: int)
    requires year >= 100 || year <= -2
    ensures GetWeekStart(year + 1, 1) == GetWeekStart(year, GetWeeksInYear(year) + 1)
  {
    hide GetWeekStart;
    hide GetWeeksInYear;
    hide CivilOf;
    WeekStartFormula(year + 1, 1);
    WeekStartFormula(year, GetWeeksInYear(year) + 1);
    WeeksInYearRule(year);
    YearStartStep(year);
    var j := YearStart(year) + 3;
    assert NewDate(year, 0, 4) == j;
    assert NewDate(year + 1, 0, 4) == j + YearLength(year);
    assert NewDate(year, 0, 1) == j - 3;
    TileArith(j, IsLeapYear(year));
  }

  // ---------------------------------------------------------------------------
  // The YearGenerator object

  /** `YearGenerator.generateYear`: weeks 1..getWeeksInYear(year), each fresh and unclaimed. */
  method GenerateYear(year: int) returns (data: YearData)
    ensures data.year == year && data.sprints == [] && data.vacationWeekIds == []
    ensures |data.weeks| == GetWeeksInYear(year)
    ensures forall i :: 0 <= i < |data.weeks| ==> data.weeks[i] == GenerateWeek(year, i + 1)
    ensures forall i :: 0 <= i < |data.weeks| ==>
      && data.weeks[i].weekNumber == i + 1 && data.weeks[i].order == i + 1
      && data.weeks[i].year == year
      && data.weeks[i].id == WeekId(year, i + 1)
      && !data.weeks[i].isVacation && data.weeks[i].sprintId == None && data.weeks[i].tasks == []
    ensures forall i, j :: 0 <= i < j < |data.weeks| ==> data.weeks[i].id != data.weeks[j].id
    ensures Allocation.Valid(data)
  {
    hide GenerateWeek;
    hide GetWeeksInYear;
    var weekCount := GetWeeksInYear(year);
    var weeks: seq<Week> := [];
    var weekNum := 1;
    while weekNum <= weekCount
      invariant 1 <= weekNum <= weekCount + 1
      invariant |weeks| == weekNum - 1
      invariant forall i :: 0 <= i < |weeks| ==> weeks[i] == GenerateWeek(year, i + 1)
    {
      weeks := weeks + [GenerateWeek(year, weekNum)];
      weekNum := weekNum + 1;
    }
    forall i | 0 <= i < |weeks| ensures weeks[i] == GenerateWeek(year, i + 1) && GenerateWeekFields(year, i + 1) {
      GenerateWeekFieldsHold(year, i + 1);
    }
    forall i, j | 0 <= i < j < |weeks| ensures weeks[i].id != weeks[j].id {
      GenerateWeekFieldsHold(year, i + 1);
      GenerateWeekFieldsHold(year, j + 1);
      WeekIdInjective(year, i + 1, j + 1);
    }
    data := YearData(year, weeks, [], []);
  }

  /** `YearGenerator.getWeekCount`. */
  function GetWeekCount(year: int): (n: int)
    ensures n == 52 || n == 53
  {
    GetWeeksInYear(year)
  }

  /** `YearGenerator.getWeekNumber`. */
  function GetWeekNumber(date: int): int
  {
    GetISOWeekNumber(date)
  }

  /** `YearGenerator.getWeekId`, as written: the date's own calendar year with getISOWeekNumber. */
  function GetWeekId(date: int): string
  {
    WeekId(GetFullYear(date), GetISOWeekNumber(date))
  }

  // ---------------------------------------------------------------------------
  // The week of a date as the generator lays the weeks out (the intended meaning
  // of getWeekNumber and getWeekId).

  /** The year whose generated weeks contain `date`: the year of the date's Thursday. */
  function IsoWeekYear(date: int): int
  {
    GetFullYear(ThursdayOf(date))
  }

  /** The number of the generated week of IsoWeekYear(date) that contains `date`. */
  function IsoWeekNumber(date: int): int
  {
    (ThursdayOf(date) - 3 - FirstMonday(IsoWeekYear(date))) / 7 + 1
  }

  /** The id of the generated week that contains `date`. */
  function IsoWeekId(date: int): string
  {
    WeekId(IsoWeekYear(date), IsoWeekNumber(date))
  }

  /** A Thursday `t` between 1 January and 31 December of a year whose 4 January is `j` lies in
      one of the `weeks` weeks that start at that year's first Monday. */
  lemma ContainingWeekArith(t: int, j: int, j2: int, weeks: int)
    requires t % 7 == 3 && j - 3 <= t <= j2 - 4
    requires j2 - j2 % 7 == j - j % 7 + 7 * weeks
    ensures var w1 := j - j % 7;
      var n := (t - 3 - w1) / 7 + 1;
      1 <= n <= weeks && w1 + 7 * (n - 1) == t - 3
  {
    var w1 := j - j % 7;
    var k := t / 7 - j / 7;
    assert t - 3 == 7 * (t / 7);
    assert w1 == 7 * (j / 7);
    assert t - 3 - w1 == 7 * k;
  }

  /** Every date lies in exactly the generated week that IsoWeekId names. */
  lemma IsoWeekIdIsContainingWeek(date: int)
    requires IsoWeekYear(date) >= 100
    ensures var y, n := IsoWeekYear(date), IsoWeekNumber(date);
      && 1 <= n <= GetWeeksInYear(y)
      && GetWeekStart(y, n) <= date <= GetWeekStart(y, n) + 6
      && IsoWeekId(date) == GenerateWeek(y, n).id
  {
    hide GetWeekStart;
    hide GetWeeksInYear;
    hide CivilOf;
    hide FormatDate;
    var y, t := IsoWeekYear(date), ThursdayOf(date);
    var weeks := GetWeeksInYear(y);
    YearsTile(y);
    WeekStartFormula(y + 1, 1);
    WeekStartFormula(y, weeks + 1);
    YearStartStep(y);
    var j, j2 := NewDate(y, 0, 4), NewDate(y + 1, 0, 4);
    assert j == YearStart(y) + 3;
    assert j2 == YearStart(y + 1) + 3;
    ContainingWeekArith(t, j, j2, weeks);
    WeekStartFormula(y, IsoWeekNumber(date));
  }

  /** The arithmetic of getISOWeekNumber against the week count from the first Monday. */
  lemma OffByOneArith(t: int, j: int)
    requires t % 7 == 3
    ensures 1 + CeilDiv(t - j, 7) == (t - 3 - (j - j % 7)) / 7 + 1 + (if j % 7 < 3 then 1 else 0)
  {
    var k := t / 7 - j / 7;
    assert t - 3 == 7 * (t / 7);
    assert j - j % 7 == 7 * (j / 7);
    assert t - 3 - (j - j % 7) == 7 * k;
    assert t - j == 7 * k + 3 - j % 7;
  }

  /** getISOWeekNumber is one more than the number of the containing generated week exactly
      when 4 January of the Thursday's year falls on a Monday, Tuesday or Wednesday. */
  lemma GetISOWeekNumberOffByOne(date: int)
    ensures var jan4 := NewDate(IsoWeekYear(date), 0, 4);
      GetISOWeekNumber(date) == IsoWeekNumber(date) + (if jan4 % 7 < 3 then 1 else 0)
  {
    hide YearStart, NewDate, CivilOf, YearOf, GetISOWeekNumber;
    var t, y := ThursdayOf(date), IsoWeekYear(date);
    var j := NewDate(y, 0, 4);
    GetISOWeekNumberUsesThursday(date);
    assert NumberFromThursday(t) == 1 + CeilDiv(t - j, 7);
    assert FirstMonday(y) == j - j % 7;
    OffByOneArith(t, j);
  }

  /** 4 January 2027 is a Monday: getWeekNumber says week 2, but the date lies in the first
      generated week of 2027. */
  lemma Jan4Of2027Counterexample()
    ensures var d := DayNumber(2027, 1, 4);
      && GetWeekNumber(d) == 2
      && IsoWeekYear(d) == 2027 && IsoWeekNumber(d) == 1
      && GetWeekStart(2027, 1) <= d <= GetWeekStart(2027, 1) + 6
  {
    hide YearStart;
    hide GetISOWeekNumber;
    hide GetWeekStart;
    hide GetWeeksInYear;
    hide CivilOf;
    hide YearOf;
    var d := DayNumber(2027, 1, 4);
    YearStartIsClosedForm(2027);
    YearStartStep(2027);
    assert d == 740355;
    assert ThursdayOf(d) == 740358;
    YearOfUnique(740358, 2027);
    GetISOWeekNumberOffByOne(d);
    IsoWeekIdIsContainingWeek(d);
  }

  /** 31 December 2024 is a Tuesday of the first generated week of 2025, but getWeekId
      names week 1 of 2024. */
  lemma Dec31Of2024Counterexample()
    ensures var d := DayNumber(2024, 12, 31);
      && GetWeekId(d) == WeekId(2024, 1)
      && IsoWeekId(d) == WeekId(2025, 1)
      && GetWeekStart(2025, 1) <= d <= GetWeekStart(2025, 1) + 6
  {
    hide YearStart;
    hide GetISOWeekNumber;
    hide GetWeekStart;
    hide GetWeeksInYear;
    hide CivilOf;
    hide YearOf;
    hide WeekId;
    var d := DayNumber(2024, 12, 31);
    YearStartIsClosedForm(2024);
    YearStartStep(2024);
    YearStartStep(2025);
    assert d == 739621;
    assert ThursdayOf(d) == 739623;
    YearOfUnique(739621, 2024);
    YearOfUnique(739623, 2025);
    assert NewDate(2025, 0, 4) == 739625;
    assert IsoWeekNumber(d) == 1;
    GetISOWeekNumberOffByOne(d);
    IsoWeekIdIsContainingWeek(d);
  }
}
