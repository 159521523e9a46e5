// Civil dates as whole day numbers, and the JavaScript `Date` operations the
// week generator uses (local midnight only; time of day and daylight saving
// time are not part of this model).
//
// Day numbers count days in the proleptic Gregorian calendar. Day 0 is a
// Monday, so `d % 7` is the weekday with Monday = 0 ... Sunday = 6.

module Calendar {
  import opened Text

  predicate IsLeapYear(y: int)
  {
    (y % 4 == 0 && y % 100 != 0) || y % 400 == 0
  }

  function YearLength(y: int): int
  {
    if IsLeapYear(y) then 366 else 365
  }

  /** Day number of 1 January of year `y`. (1 January of year 0 was a Saturday.) */
  function YearStart(y: int): int
    decreases if y >= 0 then y else -y
  {
    if y == 0 then 5
    else if y > 0 then YearStart(y - 1) + YearLength(y - 1)
    else YearStart(y + 1) - YearLength(y)
  }

  /** Consecutive years start one year length apart. */
  lemma YearStartStep(y: int)
    ensures YearStart(y + 1) == YearStart(y) + YearLength(y)
  {
  }

  /** The number of leap years in 0..y-1 (negative for y < 0) added to 365 days a year. */
  function YearStartClosedForm(y: int): int
  {
    5 + 365 * y + (y + 3) / 4 - (y + 99) / 100 + (y + 399) / 400
  }

  lemma Count4Step(y: int)
    ensures (y + 4) / 4 == (y + 3) / 4 + (if y % 4 == 0 then 1 else 0)
  {
  }

  lemma Count100Step(y: int)
    ensures (y + 100) / 100 == (y + 99) / 100 + (if y % 100 == 0 then 1 else 0)
  {
  }

  lemma Count400Step(y: int)
    ensures (y + 400) / 400 == (y + 399) / 400 + (if y % 400 == 0 then 1 else 0)
  {
  }

  /** A multiple of 400 is a multiple of 100, and a multiple of 100 a multiple of 4. */
  lemma DivisibilityChain(y: int)
    ensures y % 400 == 0 ==> y % 100 == 0
    ensures y % 100 == 0 ==> y % 4 == 0
  {
    if y % 400 == 0 {
      var m := 4 * (y / 400);
      assert y == 100 * m;
      assert 100 * (m - y / 100) == y % 100;
    }
    if y % 100 == 0 {
      var m := 25 * (y / 100);
      assert y == 4 * m;
      assert 4 * (m - y / 4) == y % 4;
    }
  }

  lemma ClosedFormStep(y: int)
    ensures YearStartClosedForm(y + 1) == YearStartClosedForm(y) + YearLength(y)
  {
    Count4Step(y);
    Count100Step(y);
    Count400Step(y);
    DivisibilityChain(y);
  }

  /** The recursive definition agrees with the closed form, which gives day numbers of
      concrete dates directly. */
  lemma {:induction false} YearStartIsClosedForm(y: int)
    ensures YearStart(y) == YearStartClosedForm(y)
    decreases if y >= 0 then y else -y
  {
    if y > 0 {
      YearStartIsClosedForm(y - 1);
      ClosedFormStep(y - 1);
    } else if y < 0 {
      YearStartIsClosedForm(y + 1);
      ClosedFormStep(y);
    }
  }

  lemma {:induction false} YearStartMonotone(a: int, b: int)
    requires a <= b
    ensures YearStart(a) + 365 * (b - a) <= YearStart(b)
    decreases b - a
  {
    if a < b {
      YearStartStep(a);
      YearStartMonotone(a + 1, b);
    }
  }

  /** Days of the year before the first day of month `m` (1 = January; 13 gives the year length). */
  function DaysBeforeMonth(y: int, m: int): int
    requires 1 <= m <= 13
  {
    if m == 1 then 0
    else if m == 2 then 31
    else
      var common :=
        if m == 3 then 59 else if m == 4 then 90 else if m == 5 then 120
        else if m == 6 then 151 else if m == 7 then 181 else if m == 8 then 212
        else if m == 9 then 243 else if m == 10 then 273 else if m == 11 then 304
        else if m == 12 then 334 else 365;
      if IsLeapYear(y) then common + 1 else common
  }

  function DaysInMonth(y: int, m: int): (n: int)
    requires 1 <= m <= 12
    ensures 28 <= n <= 31
  {
    DaysBeforeMonth(y, m + 1) - DaysBeforeMonth(y, m)
  }

  lemma {:induction false} DaysBeforeMonthMonotone(y: int, a: int, b: int)
    requires 1 <= a <= b <= 13
    ensures DaysBeforeMonth(y, a) <= DaysBeforeMonth(y, b)
    decreases b - a
  {
    if a < b {
      DaysBeforeMonthMonotone(y, a + 1, b);
    }
  }

  /** The day number of day `d` of month `m` of year `y`; `d` may overflow the month either way,
      as the day argument of a JavaScript `Date` does. */
  function DayNumber(y: int, m: int, d: int): int
    requires 1 <= m <= 12
  {
    YearStart(y) + DaysBeforeMonth(y, m) + d - 1
  }

  datatype Civil = Civil(year: int, month: int, day: int)

  predicate ValidCivil(c: Civil)
  {
    1 <= c.month <= 12 && 1 <= c.day <= DaysInMonth(c.year, c.month)
  }

  function YearUp(n: int, y: int): (r: int)
    requires YearStart(y) <= n
    ensures YearStart(r) <= n < YearStart(r + 1)
    decreases n - YearStart(y)
  {
    YearStartStep(y);
    if n < YearStart(y + 1) then y else YearUp(n, y + 1)
  }

  function YearDown(n: int, y: int): (r: int)
    requires n < YearStart(y + 1)
    ensures YearStart(r) <= n < YearStart(r + 1)
    decreases YearStart(y + 1) - n
  {
    YearStartStep(y);
    if YearStart(y) <= n then y else YearDown(n, y - 1)
  }

  /** The year that day `n` falls in. */
  function YearOf(n: int): (y: int)
    ensures YearStart(y) <= n < YearStart(y + 1)
  {
    var e := n / 365;
    if YearStart(e) <= n then YearUp(n, e) else YearDown(n, e - 1)
  }

  /** Only one year contains a given day. */
  lemma YearOfUnique(n: int, y: int)
    requires YearStart(y) <= n < YearStart(y + 1)
    ensures YearOf(n) == y
  {
    var r := YearOf(n);
    if r < y {
      YearStartMonotone(r + 1, y);
    } else if y < r {
      YearStartMonotone(y + 1, r);
    }
  }

  function MonthOf(y: int, doy: int, m: int): (r: int)
    requires 1 <= m <= 12 && 0 <= doy < DaysBeforeMonth(y, m + 1)
    ensures 1 <= r <= m && DaysBeforeMonth(y, r) <= doy < DaysBeforeMonth(y, r + 1)
    decreases m
  {
    if DaysBeforeMonth(y, m) <= doy then m else MonthOf(y, doy, m - 1)
  }

  /** Year, month and day of day number `n`. */
  function CivilOf(n: int): (c: Civil)
    ensures ValidCivil(c) && DayNumber(c.year, c.month, c.day) == n
  {
    var y := YearOf(n);
    YearStartStep(y);
    var doy := n - YearStart(y);
    var m := MonthOf(y, doy, 12);
    Civil(y, m, doy - DaysBeforeMonth(y, m) + 1)
  }

  /** Only one month contains a given day of the year. */
  lemma MonthOfUnique(y: int, doy: int, m: int)
    requires 1 <= m <= 12 && DaysBeforeMonth(y, m) <= doy < DaysBeforeMonth(y, m + 1)
    ensures DaysBeforeMonth(y, 13) > doy
    ensures MonthOf(y, doy, 12) == m
  {
    DaysBeforeMonthMonotone(y, m + 1, 13);
    var r := MonthOf(y, doy, 12);
    if r < m {
      DaysBeforeMonthMonotone(y, r + 1, m);
    } else if m < r {
      DaysBeforeMonthMonotone(y, m + 1, r);
    }
  }

  /** CivilOf reads back every valid calendar date. */
  lemma CivilOfDayNumber(y: int, m: int, d: int)
    requires 1 <= m <= 12 && 1 <= d <= DaysInMonth(y, m)
    ensures CivilOf(DayNumber(y, m, d)) == Civil(y, m, d)
  {
    var n := DayNumber(y, m, d);
    var doy := DaysBeforeMonth(y, m) + d - 1;
    MonthOfUnique(y, doy, m);
    YearStartStep(y);
    assert YearStart(y) <= n < YearStart(y + 1);
    YearOfUnique(n, y);
  }

  /** `new Date(y, monthIndex, d)`: JavaScript reads the years 0..99 as 1900..1999. */
  function JsYear(y: int): int
  {
    if 0 <= y <= 99 then 1900 + y else y
  }

  function NewDate(y: int, monthIndex: int, d: int): int
    requires 0 <= monthIndex < 12
  {
    DayNumber(JsYear(y), monthIndex + 1, d)
  }

  /** `date.getFullYear()`: the year of CivilOf(t). */
  function GetFullYear(t: int): int
  {
    YearOf(t)
  }

  /** `date.getMonth()`: 0 = January. */
  function GetMonth(t: int): int
  {
    CivilOf(t).month - 1
  }

  /** `date.getDate()`: the day of the month. */
  function GetDate(t: int): int
  {
    CivilOf(t).day
  }

  /** `date.getDay()`: 0 = Sunday, 1 = Monday, ..., 6 = Saturday. */
  function GetDay(t: int): int
  {
    (t % 7 + 1) % 7
  }

  /** `date.setDate(d)`: day `d` of the date's own month, overflowing into the neighbouring
      months, that is, `d - getDate()` days after the date. */
  function SetDate(t: int, d: int): int
  {
    t - GetDate(t) + d
  }

  /** Setting the day of the month to `getDate() + k` moves the date by exactly `k` days. */
  lemma SetDateShift(t: int, k: int)
    ensures SetDate(t, GetDate(t) + k) == t + k
  {
  }

  /** `formatDate`: `YYYY-MM-DD` with the month and day zero-padded to two digits. */
  function FormatDate(t: int): string
  {
    var c := CivilOf(t);
    FormatCivil(c.year, c.month, c.day)
  }

  function FormatCivil(year: int, month: nat, day: nat): string
  {
    IntToString(year) + "-" + PadStart2(NatToString(month)) + "-" + PadStart2(NatToString(day))
  }

  /** The pieces of a formatted date: the year, then the padded month and the padded day,
      two characters each. */
  lemma FormatCivilParts(year: int, month: nat, day: nat)
    requires month < 100 && day < 100
    ensures var s := FormatCivil(year, month, day);
      && |s| >= 6
      && s[..|s| - 6] == IntToString(year)
      && s[|s| - 5..|s| - 3] == PadStart2(NatToString(month))
      && s[|s| - 2..] == PadStart2(NatToString(day))
  {
    Pad2Digits(month);
    Pad2Digits(day);
    DashedParts(IntToString(year), PadStart2(NatToString(month)), PadStart2(NatToString(day)));
  }

  lemma DashedParts(y: string, m: string, d: string)
    requires |m| == 2 && |d| == 2
    ensures var s := y + "-" + m + "-" + d;
      |s| == |y| + 6 && s[..|s| - 6] == y && s[|s| - 5..|s| - 3] == m && s[|s| - 2..] == d
  {
  }

  /** Distinct calendar dates are formatted as distinct strings. */
  lemma FormatCivilInjective(y1: int, m1: nat, d1: nat, y2: int, m2: nat, d2: nat)
    requires m1 < 100 && d1 < 100 && m2 < 100 && d2 < 100
    requires FormatCivil(y1, m1, d1) == FormatCivil(y2, m2, d2)
    ensures y1 == y2 && m1 == m2 && d1 == d2
  {
    FormatCivilPartsAgree(y1, m1, d1, y2, m2, d2);
    hide FormatCivil, IntToString, PadStart2, NatToString;
    IntToStringInjective(y1, y2);
    Pad2Injective(m1, m2);
    Pad2Injective(d1, d2);
  }

  /** Equal formatted dates have equal years, padded months and padded days. */
  lemma FormatCivilPartsAgree(y1: int, m1: nat, d1: nat, y2: int, m2: nat, d2: nat)
    requires m1 < 100 && d1 < 100 && m2 < 100 && d2 < 100
    requires FormatCivil(y1, m1, d1) == FormatCivil(y2, m2, d2)
    ensures IntToString(y1) == IntToString(y2)
    ensures PadStart2(NatToString(m1)) == PadStart2(NatToString(m2))
    ensures PadStart2(NatToString(d1)) == PadStart2(NatToString(d2))
  {
    hide *;
    FormatCivilParts(y1, m1, d1);
    FormatCivilParts(y2, m2, d2);
  }

  /** Distinct days are formatted as distinct strings. */
  lemma FormatDateInjective(a: int, b: int)
    requires FormatDate(a) == FormatDate(b)
    ensures a == b
  {
    var ca, cb := CivilOf(a), CivilOf(b);
    FormatCivilInjective(ca.year, ca.month, ca.day, cb.year, cb.month, cb.day);
  }
}
