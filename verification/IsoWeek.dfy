/** ISO 8601 week dates. */
module IsoWeek {
  import opened Powers

  // ---- The calendar ---------------------------------------------------------------------------------

  predicate IsLeap(year: int)
  {
    year % 4 == 0 && (year % 100 != 0 || year % 400 == 0)
  }

  function DaysIn(year: int): int
  {
    if IsLeap(year) then 366 else 365
  }

  /** The number of leap days in the years 1 to year, counted backwards before that. */
  function LeapDays(year: int): int
  {
    year / 4 - year / 100 + year / 400
  }

  /** The day January 1 of a year falls on; day 0 is January 1 of year 1, a Monday. */
  function NewYear(year: int): int
  {
    365 * (year - 1) + LeapDays(year - 1)
  }

  /** Years follow each other. */
  lemma NextYear(year: int)
    ensures NewYear(year + 1) == NewYear(year) + DaysIn(year) && 365 <= DaysIn(year) <= 366
  {
    Quotient(year, 4);
    Quotient(year, 100);
    Quotient(year, 400);
    LeapCases(year);
  }

  lemma Quotient(year: int, k: nat)
    requires k == 4 || k == 100 || k == 400
    ensures year / k - (year - 1) / k == if year % k == 0 then 1 else 0
  {
  }

  lemma LeapCases(year: int)
    ensures year % 400 == 0 ==> year % 100 == 0
    ensures year % 100 == 0 ==> year % 4 == 0
  {
    if year % 400 == 0 {
      DivModIs(year, 100, 4 * (year / 400), 0);
    }
    if year % 100 == 0 {
      DivModIs(year, 4, 25 * (year / 100), 0);
    }
  }

  // ---- The week date: section 4.1.4 of ISO 8601:2004 ------------------------------------------------

  /** The Thursday of the Monday to Sunday week that a day lies in. */
  function Thursday(day: int): int
  {
    day - day % 7 + 3
  }

  predicate InYear(day: int, year: int)
  {
    NewYear(year) <= day < NewYear(year + 1)
  }

  /** The week-year and week of a day are the year its Thursday lies in and that Thursday's number in it. */
  predicate IsWeekDate(day: int, weekYear: int, week: int)
  {
    InYear(Thursday(day), weekYear) && week == 1 + (Thursday(day) - NewYear(weekYear)) / 7
  }

  // ---- The computation, with truncating division ------------------------------------------------------

  function Div(a: int, b: nat): int
    requires b > 0
  {
    if a >= 0 then a / b else -((-a) / b)
  }

  function Mod(a: int, b: nat): int
    requires b > 0
  {
    a - Div(a, b) * b
  }

  /** tm_yday and tm_wday: the day of the year from 0, the day of the week from Sunday. */
  datatype Tm = Tm(year: int, yday: int, wday: int)

  function Day(tm: Tm): int
  {
    NewYear(tm.year) + tm.yday
  }

  /** The fields belong to a date. */
  predicate Consistent(tm: Tm)
  {
    0 <= tm.yday < DaysIn(tm.year) && tm.wday == (Day(tm) + 1) % 7
  }

  function YearPhase(year: int): int
  {
    Mod(year + Div(year, 4) - Div(year, 100) + Div(year, 400), 7)
  }

  function IsoYearWeeks(year: int): int
  {
    52 + if YearPhase(year) == 4 || YearPhase(year - 1) == 3 then 1 else 0
  }

  function IsoWeekNum(yday: int, wday: int): int
  {
    Div(yday + 11 - (if wday == 0 then 7 else wday), 7)
  }

  function IsoWeekYear(tm: Tm): int
  {
    var w := IsoWeekNum(tm.yday, tm.wday);
    if w < 1 then tm.year - 1 else if w > IsoYearWeeks(tm.year) then tm.year + 1 else tm.year
  }

  function IsoWeekOfYear(tm: Tm): int
  {
    var w := IsoWeekNum(tm.yday, tm.wday);
    if w < 1 then IsoYearWeeks(tm.year - 1) else if w > IsoYearWeeks(tm.year) then 1 else w
  }

  // ---- Correctness ----------------------------------------------------------------------------------

  /** The number of weeks a year has: 53 if it starts or ends on a Thursday. */
  function Weeks(year: int): int
  {
    if NewYear(year) % 7 == 3 || NewYear(year + 1) % 7 == 4 then 53 else 52
  }

  /** Whole weeks change the week and not the weekday. */
  lemma WholeWeeks(x: int, k: int)
    ensures (7 * k + x) % 7 == x % 7
    ensures (7 * k + x) / 7 == k + x / 7
  {
  }

  lemma Phase(year: int)
    requires year >= 0
    ensures YearPhase(year) == NewYear(year + 1) % 7
  {
    var x := year + LeapDays(year);
    assert NewYear(year + 1) == 7 * (52 * year) + x;
    WholeWeeks(x, 52 * year);
    NonNegativeMod(x, year);
  }

  lemma NonNegativeMod(x: int, year: int)
    requires year >= 0 && x == year + LeapDays(year)
    ensures YearPhase(year) == x % 7
  {
    assert x >= 0;
  }

  /** Truncation leaves nothing positive of an earlier year. */
  lemma PhaseBefore(year: int)
    requires year < 0
    ensures YearPhase(year) <= 0
  {
    var s := year + Div(year, 4) - Div(year, 100) + Div(year, 400);
    assert s <= 0;
  }

  /** Year 0 and the one before it have 52 weeks. */
  lemma AroundZero()
    ensures Weeks(0) == 52 && Weeks(-1) == 52
  {
    assert NewYear(-1) == -731 && NewYear(0) == -366 && NewYear(1) == 0;
    WholeWeeks(4, -105);
    WholeWeeks(5, -53);
  }

  lemma SmallPhase(year: int)
    requires -1 <= year <= 0
    ensures YearPhase(year) == year
  {
    SmallQuotient(year, 4);
    SmallQuotient(year, 100);
    SmallQuotient(year, 400);
    SmallQuotient(year, 7);
  }

  lemma SmallQuotient(year: int, k: nat)
    requires -1 <= year <= 0 && k > 1
    ensures Div(year, k) == 0
  {
  }

  lemma WeeksFromYear1(year: int)
    requires year >= 1
    ensures IsoYearWeeks(year) == Weeks(year)
  {
    hide YearPhase, NewYear;
    Phase(year);
    Phase(year - 1);
    SameWeeks(YearPhase(year), YearPhase(year - 1));
  }

  lemma SameWeeks(end: int, start: int)
    ensures (if end == 4 || start == 3 then 53 else 52) == 52 + if end == 4 || start == 3 then 1 else 0
  {
  }

  lemma WeeksBeforeYear1(year: int)
    requires year < 1
    ensures IsoYearWeeks(year) == 52
  {
    hide YearPhase;
    if year == 0 {
      SmallPhase(year);
      SmallPhase(year - 1);
    } else {
      PhaseBefore(year);
      PhaseBefore(year - 1);
    }
  }

  lemma YearWeeks(year: int)
    ensures year >= -1 ==> IsoYearWeeks(year) == Weeks(year)
    ensures year < 1 ==> IsoYearWeeks(year) == 52
  {
    AroundZero();
    hide IsoYearWeeks;
    hide Weeks;
    if year >= 1 {
      WeeksFromYear1(year);
    } else {
      WeeksBeforeYear1(year);
    }
  }

  /** The Thursday of a date's week lies d days after January 1, and d tells the computed week. */
  lemma WeekNum(tm: Tm) returns (d: int)
    requires Consistent(tm)
    ensures Thursday(Day(tm)) == NewYear(tm.year) + d
    ensures (NewYear(tm.year) + d) % 7 == 3 && -3 <= d < DaysIn(tm.year) + 3
    ensures IsoWeekNum(tm.yday, tm.wday) == (d + 7) / 7
  {
    hide NewYear, DaysIn;
    var wd := Day(tm) % 7;
    d := tm.yday - wd + 3;
    WholeWeeks(wd + 1, Day(tm) / 7);
    WholeWeeks(3, Day(tm) / 7);
  }

  /** The three cases of the computed week are the week date of the Thursday. */
  lemma WeekDate(tm: Tm)
    requires Consistent(tm)
    ensures var w := IsoWeekNum(tm.yday, tm.wday);
      if w < 1 then IsWeekDate(Day(tm), tm.year - 1, Weeks(tm.year - 1))
      else if w > Weeks(tm.year) then IsWeekDate(Day(tm), tm.year + 1, 1)
      else IsWeekDate(Day(tm), tm.year, w)
  {
    hide NewYear, DaysIn, Day, Thursday, IsoWeekNum, IsWeekDate, Weeks;
    var d := WeekNum(tm);
    DateOfThursday(Day(tm), tm.year, d, IsoWeekNum(tm.yday, tm.wday));
  }

  lemma DateOfThursday(day: int, y: int, d: int, w: int)
    requires Thursday(day) == NewYear(y) + d && (NewYear(y) + d) % 7 == 3
    requires -3 <= d < DaysIn(y) + 3 && w == (d + 7) / 7
    ensures if w < 1 then IsWeekDate(day, y - 1, Weeks(y - 1))
            else if w > Weeks(y) then IsWeekDate(day, y + 1, 1)
            else IsWeekDate(day, y, w)
  {
    hide NewYear, DaysIn, Thursday, IsWeekDate;
    NextYear(y - 1);
    NextYear(y);
    NextYear(y + 1);
    WeekCases(NewYear(y), DaysIn(y), d);
    if w < 1 {
      WeekBefore(NewYear(y - 1), DaysIn(y - 1), d);
      Dated(day, y - 1, DaysIn(y - 1) + d, Weeks(y - 1));
    } else if w > Weeks(y) {
      Dated(day, y + 1, d - DaysIn(y), 1);
    } else {
      Dated(day, y, d, w);
    }
  }

  /** The week date of a day whose Thursday is d days after January 1. */
  lemma Dated(day: int, y: int, d: int, w: int)
    requires Thursday(day) == NewYear(y) + d && 0 <= d < NewYear(y + 1) - NewYear(y) && w == 1 + d / 7
    ensures IsWeekDate(day, y, w)
  {
    hide Thursday, NewYear;
  }

  /** Where the Thursday d days after January 1 lies, in a year of that length. */
  lemma WeekCases(start: int, days: int, d: int)
    requires (start + d) % 7 == 3 && 365 <= days <= 366 && -3 <= d < days + 3
    ensures var w, weeks := (d + 7) / 7, if start % 7 == 3 || (start + days) % 7 == 4 then 53 else 52;
      (d < 0 <==> w < 1) && (d >= days <==> w > weeks) && w == 1 + d / 7
  {
    WholeWeeks(start % 7 + d % 7, start / 7 + d / 7);
    WholeWeeks(start % 7 + days, start / 7);
  }

  /** The same for a Thursday in the year before. */
  lemma WeekBefore(start: int, days: int, d: int)
    requires (start + days + d) % 7 == 3 && 365 <= days <= 366 && -3 <= d < 0
    ensures var x, weeks := days + d, if start % 7 == 3 || (start + days) % 7 == 4 then 53 else 52;
      0 <= x < days && weeks == 1 + x / 7
  {
    WholeWeeks(start % 7 + (days + d), start / 7);
    WholeWeeks(start % 7 + days, start / 7);
  }

  /** A day has one week date. */
  lemma WeekDateUnique(day: int, y: int, w: int, y': int, w': int)
    requires IsWeekDate(day, y, w) && IsWeekDate(day, y', w')
    ensures y == y' && w == w'
  {
    if y < y' {
      YearsOrdered(y + 1, y');
    } else if y' < y {
      YearsOrdered(y' + 1, y);
    }
  }

  lemma {:induction false} YearsOrdered(y: int, y': int)
    requires y <= y'
    ensures NewYear(y) <= NewYear(y')
    decreases y' - y
  {
    if y < y' {
      YearsOrdered(y, y' - 1);
      NextYear(y' - 1);
    }
  }

  /**
   * The computed week date is right for every date from year 0 on, and before that exactly for the
   * dates that lie in no week 53.
   */
  lemma IsoWeekExact(tm: Tm, weekYear: int, week: int)
    requires Consistent(tm) && IsWeekDate(Day(tm), weekYear, week)
    ensures (IsoWeekYear(tm) == weekYear && IsoWeekOfYear(tm) == week) <==> (tm.year >= 0 || week != 53)
  {
    hide NewYear, DaysIn, Day, Thursday, IsoWeekNum, IsWeekDate, Weeks, IsoYearWeeks;
    var y, w := tm.year, IsoWeekNum(tm.yday, tm.wday);
    WeekDate(tm);
    if w < 1 {
      WeekDateUnique(Day(tm), weekYear, week, y - 1, Weeks(y - 1));
    } else if w > Weeks(y) {
      WeekDateUnique(Day(tm), weekYear, week, y + 1, 1);
    } else {
      WeekDateUnique(Day(tm), weekYear, week, y, w);
    }
    YearWeeks(y);
    YearWeeks(y - 1);
    TwoOrThree(y);
    TwoOrThree(y - 1);
  }

  lemma TwoOrThree(y: int)
    ensures 52 <= Weeks(y) <= 53
  {
  }

  /** January 1 of year -1 lies in week 53 of year -2, but comes out as its week 52. */
  lemma EarlyYear()
    ensures var tm := Tm(-1, 0, 5);
      Consistent(tm) && IsWeekDate(Day(tm), -2, 53) && IsoWeekYear(tm) == -2 && IsoWeekOfYear(tm) == 52
  {
    var tm := Tm(-1, 0, 5);
    EarlyNewYear();
    hide NewYear;
    assert IsoWeekNum(0, 5) == 0;
    WeekDate(tm);
    hide IsWeekDate;
    hide IsoYearWeeks;
    YearWeeks(-2);
  }

  lemma EarlyNewYear()
    ensures NewYear(-1) % 7 == 4 && (NewYear(-1) + 1) % 7 == 5
  {
    assert NewYear(-1) == -731;
    WholeWeeks(4, -105);
    WholeWeeks(5, -105);
  }
}
