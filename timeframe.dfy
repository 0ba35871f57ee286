/**
 * The timeframe-based progress reset of `utils/timeframe.js`: the start of
 * the current period for a goal's cadence, the chronological ordering of
 * its journal, and the progress shown for the goal, which is the progress of
 * the latest journal entry made in the current period.
 */
module Timeframe {
  import opened Wrappers
  import opened Text
  import opened Calendar

  // ---------------------------------------------------------------------
  // Period start (getCurrentPeriodStart)
  // ---------------------------------------------------------------------

  /** The four cadences; every other tag is read as Weekly. */
  datatype Cadence = Daily | Weekly | Monthly | Yearly

  /**
   * The tag, lower-cased (absent counts as empty), matched against the four case
   * labels; an absent tag, the empty tag and any other text fall to the
   * `default:` branch, whose rule is the weekly one.
   */
  function ParseCadence(timeframe: Option<string>): (c: Cadence)
    ensures c == Daily <==> timeframe.Some? && Lower(timeframe.value) == "daily"
    ensures c == Monthly <==> timeframe.Some? && Lower(timeframe.value) == "monthly"
    ensures c == Yearly <==> timeframe.Some? && Lower(timeframe.value) == "yearly"
  {
    var tag := if timeframe.Some? then Lower(timeframe.value) else "";
    if tag == "daily" then Daily
    else if tag == "weekly" then Weekly
    else if tag == "monthly" then Monthly
    else if tag == "yearly" then Yearly
    else Weekly
  }

  /** UTC midnight of a civil date given as `Date.UTC` arguments, with the year taken as written. */
  function UTCMidnight(y: int, m: int, dt: int): int {
    MakeDate(MakeDay(y, m, dt), 0)
  }

  /**
   * The period start as the function reads: every midnight built with
   * `Date.UTC`, whose two-digit-year rule applies; the weekly start is
   * `startOfDay` moved back with `setUTCDate`.
   */
  function PeriodStartAsWritten(c: Cadence, now: int): int {
    var y := GetUTCFullYear(now);
    var m := GetUTCMonth(now);
    var d := GetUTCDate(now);
    var startOfDay := DateUTC(y, m, d);
    match c
    case Daily => startOfDay
    case Weekly => BackToMondayFrom(startOfDay, GetUTCDay(now))
    case Monthly => DateUTC(y, m, 1)
    case Yearly => DateUTC(y, 0, 1)
  }

  /** `(weekday + 6) % 7`: the number of days since the last Monday, for a weekday with Sunday as 0. */
  function DaysSinceMonday(weekday: int): (d: int)
    ensures 0 <= d < 7
  {
    (weekday + 6) % 7
  }

  /** The weekly rule: `startOfDay` moved back with `setUTCDate` to the last Monday. */
  function BackToMondayFrom(startOfDay: int, weekday: int): int {
    SetUTCDate(startOfDay, GetUTCDate(startOfDay) - DaysSinceMonday(weekday))
  }

  function GetCurrentPeriodStartAsWritten(timeframe: Option<string>, now: int): int {
    PeriodStartAsWritten(ParseCadence(timeframe), now)
  }

  /**
   * The period start with the intended reading of `now`'s own UTC year: the
   * same branches, every midnight built from the year `getUTCFullYear`
   * returned.
   */
  function PeriodStart(c: Cadence, now: int): int {
    var y := GetUTCFullYear(now);
    var m := GetUTCMonth(now);
    var d := GetUTCDate(now);
    var startOfDay := UTCMidnight(y, m, d);
    match c
    case Daily => startOfDay
    case Weekly => BackToMondayFrom(startOfDay, GetUTCDay(now))
    case Monthly => UTCMidnight(y, m, 1)
    case Yearly => UTCMidnight(y, 0, 1)
  }

  function GetCurrentPeriodStart(timeframe: Option<string>, now: int): int {
    PeriodStart(ParseCadence(timeframe), now)
  }

  /** The length of the period that contains `now`, in days. */
  function PeriodDays(c: Cadence, now: int): (n: int)
    ensures 1 <= n <= 366
  {
    var date := CivilFromDays(Day(now));
    match c
    case Daily => 1
    case Weekly => 7
    case Monthly => DaysInMonth(date.year, date.month)
    case Yearly => DaysInYear(date.year)
  }

  lemma UTCMidnightOfDate(d: CivilDate)
    requires 0 <= d.month < 12
    ensures UTCMidnight(d.year, d.month, d.date) == DaysFromCivil(d) * MsPerDay
  {
  }

  /** `startOfDay`, rebuilt from `now`'s own year, month and date, is the midnight of `now`'s day. */
  lemma StartOfDay(now: int)
    ensures UTCMidnight(GetUTCFullYear(now), GetUTCMonth(now), GetUTCDate(now)) == Day(now) * MsPerDay
  {
    UTCMidnightOfDate(CivilFromDays(Day(now)));
  }

  /** `daily`: the start of `now`'s UTC day. */
  lemma DailyStart(now: int)
    ensures PeriodStart(Daily, now) == Day(now) * MsPerDay
    ensures PeriodStart(Daily, now) <= now < PeriodStart(Daily, now) + MsPerDay
  {
    StartOfDay(now);
  }

  /** The weekly start, as a day number: the days since Monday before `now`'s day. */
  lemma WeeklyStartDay(now: int)
    ensures PeriodStart(Weekly, now) == (Day(now) - DaysSinceMonday(GetUTCDay(now))) * MsPerDay
  {
    var startOfDay := UTCMidnight(GetUTCFullYear(now), GetUTCMonth(now), GetUTCDate(now));
    WeeklyBranch(now);
    StartOfDay(now);
    BackToMondayShift(startOfDay, GetUTCDay(now));
  }

  lemma WeeklyBranch(now: int)
    ensures PeriodStart(Weekly, now)
         == BackToMondayFrom(UTCMidnight(GetUTCFullYear(now), GetUTCMonth(now), GetUTCDate(now)), GetUTCDay(now))
  {
  }

  /** The weekly rule moves its start back by whole days. */
  lemma BackToMondayShift(startOfDay: int, weekday: int)
    ensures BackToMondayFrom(startOfDay, weekday) == startOfDay - DaysSinceMonday(weekday) * MsPerDay
  {
    BackToMondayUnfold(startOfDay, weekday);
    SetUTCDateBack(startOfDay, DaysSinceMonday(weekday));
  }

  lemma BackToMondayUnfold(startOfDay: int, weekday: int)
    ensures BackToMondayFrom(startOfDay, weekday)
         == SetUTCDate(startOfDay, GetUTCDate(startOfDay) - DaysSinceMonday(weekday))
  {
  }

  /** Moving back the days since Monday from any instant lands on a Monday midnight of the past week. */
  lemma BackToMonday(now: int, s: int)
    requires s == (Day(now) - DaysSinceMonday(GetUTCDay(now))) * MsPerDay
    ensures s % MsPerDay == 0 && GetUTCDay(s) == 1
    ensures s <= now < s + 7 * MsPerDay
  {
    var n := Day(now);
    var back := DaysSinceMonday(GetUTCDay(now));
    DayOfMidnight(n - back, 0);
    assert Day(s) == n - back;
  }

  /** `weekly`: a Monday midnight less than seven days before `now`. */
  lemma WeeklyStart(now: int)
    ensures PeriodStart(Weekly, now) % MsPerDay == 0
    ensures GetUTCDay(PeriodStart(Weekly, now)) == 1
    ensures PeriodStart(Weekly, now) <= now < PeriodStart(Weekly, now) + 7 * MsPerDay
  {
    WeeklyStartDay(now);
    BackToMonday(now, PeriodStart(Weekly, now));
  }

  /** Two Monday midnights less than seven days before the same instant are equal. */
  lemma MondaysAgree(now: int, a: int, b: int)
    requires a % MsPerDay == 0 && GetUTCDay(a) == 1 && a <= now < a + 7 * MsPerDay
    requires b % MsPerDay == 0 && GetUTCDay(b) == 1 && b <= now < b + 7 * MsPerDay
    ensures a == b
  {
  }

  /** The weekly start is the only Monday midnight in the seven days up to `now`. */
  lemma WeeklyStartUnique(now: int, monday: int)
    requires monday % MsPerDay == 0 && GetUTCDay(monday) == 1
    requires monday <= now < monday + 7 * MsPerDay
    ensures monday == PeriodStart(Weekly, now)
  {
    WeeklyStart(now);
    MondaysAgree(now, monday, PeriodStart(Weekly, now));
  }

  /** The day number of date 1 of the month of day `n`. */
  function FirstDayOfMonth(n: int): int {
    n - CivilFromDays(n).date + 1
  }

  /** The monthly start, as a day number: `now`'s day moved back to date 1. */
  lemma MonthlyStartDay(now: int)
    ensures var date := CivilFromDays(Day(now));
      && PeriodStart(Monthly, now) == FirstDayOfMonth(Day(now)) * MsPerDay
      && CivilFromDays(FirstDayOfMonth(Day(now))) == CivilDate(date.year, date.month, 1)
  {
    var date := CivilFromDays(Day(now));
    var first := CivilDate(date.year, date.month, 1);
    MonthlyBranch(now);
    FirstOfMonth(Day(now), date);
    UTCMidnightOfDate(first);
  }

  lemma MonthlyBranch(now: int)
    ensures PeriodStart(Monthly, now) == UTCMidnight(GetUTCFullYear(now), GetUTCMonth(now), 1)
  {
  }

  /** Date 1 of a valid date's month lies `date - 1` days before it. */
  lemma FirstOfMonth(n: int, d: CivilDate)
    requires ValidDate(d) && DaysFromCivil(d) == n
    ensures var first := CivilDate(d.year, d.month, 1);
      && DaysFromCivil(first) == FirstDayOfMonth(n)
      && CivilFromDays(FirstDayOfMonth(n)) == first
  {
    var first := CivilDate(d.year, d.month, 1);
    CivilRoundTrip(d);
    CivilRoundTrip(first);
  }

  /** A day number `k` moved to the millisecond scale is a midnight whose day is `k`. */
  lemma MidnightOf(k: int, s: int)
    requires s == k * MsPerDay
    ensures s % MsPerDay == 0 && Day(s) == k
  {
    DayOfMidnight(k, 0);
  }

  /** `monthly`: midnight of the first day of `now`'s UTC month. */
  lemma MonthlyStart(now: int)
    ensures var date := CivilFromDays(Day(now));
      && PeriodStart(Monthly, now) % MsPerDay == 0
      && CivilFromDays(Day(PeriodStart(Monthly, now))) == CivilDate(date.year, date.month, 1)
      && PeriodStart(Monthly, now) <= now
      && now < PeriodStart(Monthly, now) + DaysInMonth(date.year, date.month) * MsPerDay
  {
    var date := CivilFromDays(Day(now));
    var s := PeriodStart(Monthly, now);
    MonthlyStartDay(now);
    MidnightOf(FirstDayOfMonth(Day(now)), s);
    DayAndYearOf(now);
    DaysBackWindow(Day(now), date.date, DaysInMonth(date.year, date.month), s, now);
  }

  /** A start `date - 1` days before `now`'s day covers `now` within `length` days when `date <= length`. */
  lemma DaysBackWindow(n: int, date: int, length: int, s: int, now: int)
    requires 1 <= date <= length
    requires s == (n - date + 1) * MsPerDay
    requires n * MsPerDay <= now < n * MsPerDay + MsPerDay
    ensures s <= now < s + length * MsPerDay
  {
  }

  /** The yearly start, as a day number: 1 January of `now`'s year. */
  lemma YearlyStartDay(now: int)
    ensures var date := CivilFromDays(Day(now));
      && PeriodStart(Yearly, now) == DayFromYear(date.year) * MsPerDay
      && CivilFromDays(DayFromYear(date.year)) == CivilDate(date.year, 0, 1)
      && DayFromYear(date.year) <= Day(now) < DayFromYear(date.year) + DaysInYear(date.year)
  {
    var date := CivilFromDays(Day(now));
    var first := CivilDate(date.year, 0, 1);
    var k := DayFromYear(date.year);
    UTCMidnightOfDate(first);
    assert DaysFromCivil(first) == k;
    CivilRoundTrip(first);
    MonthStartOrdered(date.year, date.month + 1, 12);
  }

  /** `yearly`: midnight of 1 January of `now`'s UTC year. */
  lemma YearlyStart(now: int)
    ensures var date := CivilFromDays(Day(now));
      && PeriodStart(Yearly, now) % MsPerDay == 0
      && CivilFromDays(Day(PeriodStart(Yearly, now))) == CivilDate(date.year, 0, 1)
      && PeriodStart(Yearly, now) <= now
      && now < PeriodStart(Yearly, now) + DaysInYear(date.year) * MsPerDay
  {
    var date := CivilFromDays(Day(now));
    YearlyStartDay(now);
    MidnightOf(DayFromYear(date.year), PeriodStart(Yearly, now));
  }

  /** The bounds of `PeriodStartBounds`, one cadence at a time. */
  lemma DailyBounds(now: int)
    ensures PeriodStart(Daily, now) % MsPerDay == 0
    ensures PeriodStart(Daily, now) <= now < PeriodStart(Daily, now) + PeriodDays(Daily, now) * MsPerDay
  {
    DailyStart(now);
    MidnightOf(Day(now), PeriodStart(Daily, now));
  }

  lemma WeeklyBounds(now: int)
    ensures PeriodStart(Weekly, now) % MsPerDay == 0
    ensures PeriodStart(Weekly, now) <= now < PeriodStart(Weekly, now) + PeriodDays(Weekly, now) * MsPerDay
  {
    WeeklyStart(now);
  }

  lemma MonthlyBounds(now: int)
    ensures PeriodStart(Monthly, now) % MsPerDay == 0
    ensures PeriodStart(Monthly, now) <= now < PeriodStart(Monthly, now) + PeriodDays(Monthly, now) * MsPerDay
  {
    MonthlyStart(now);
  }

  lemma YearlyBounds(now: int)
    ensures PeriodStart(Yearly, now) % MsPerDay == 0
    ensures PeriodStart(Yearly, now) <= now < PeriodStart(Yearly, now) + PeriodDays(Yearly, now) * MsPerDay
  {
    YearlyStart(now);
  }

  /** For every cadence the start is a UTC midnight, never after `now`, less than one period before it. */
  lemma PeriodStartBounds(c: Cadence, now: int)
    ensures PeriodStart(c, now) % MsPerDay == 0
    ensures PeriodStart(c, now) <= now < PeriodStart(c, now) + PeriodDays(c, now) * MsPerDay
  {
    match c
    case Daily => DailyBounds(now);
    case Weekly => WeeklyBounds(now);
    case Monthly => MonthlyBounds(now);
    case Yearly => YearlyBounds(now);
  }

  lemma DailyIdempotent(now: int)
    ensures PeriodStart(Daily, PeriodStart(Daily, now)) == PeriodStart(Daily, now)
  {
    var s := PeriodStart(Daily, now);
    DailyStart(now);
    DailyStart(s);
    MidnightOf(Day(now), s);
  }

  lemma WeeklyIdempotent(now: int)
    ensures PeriodStart(Weekly, PeriodStart(Weekly, now)) == PeriodStart(Weekly, now)
  {
    var s := PeriodStart(Weekly, now);
    WeeklyStart(now);
    WeeklyStartUnique(s, s);
  }

  lemma MonthlyIdempotent(now: int)
    ensures PeriodStart(Monthly, PeriodStart(Monthly, now)) == PeriodStart(Monthly, now)
  {
    var k := FirstDayOfMonth(Day(now));
    var s := PeriodStart(Monthly, now);
    MonthlyStartDay(now);
    MidnightOf(k, s);
    MonthlyStartDay(s);
  }

  lemma YearlyIdempotent(now: int)
    ensures PeriodStart(Yearly, PeriodStart(Yearly, now)) == PeriodStart(Yearly, now)
  {
    var k := DayFromYear(GetUTCFullYear(now));
    YearlyStartDay(now);
    MidnightOf(k, PeriodStart(Yearly, now));
    YearlyStartDay(PeriodStart(Yearly, now));
  }

  /** Taking the period start of a period start changes nothing. */
  lemma PeriodStartIdempotent(c: Cadence, now: int)
    ensures PeriodStart(c, PeriodStart(c, now)) == PeriodStart(c, now)
  {
    match c
    case Daily => DailyIdempotent(now);
    case Weekly => WeeklyIdempotent(now);
    case Monthly => MonthlyIdempotent(now);
    case Yearly => YearlyIdempotent(now);
  }

  /** An absent tag, and any tag that is not one of the four names, behaves as `weekly`. */
  lemma UnknownTagIsWeekly(timeframe: Option<string>, now: int)
    requires timeframe.Some? ==> Lower(timeframe.value) !in {"daily", "monthly", "yearly"}
    ensures GetCurrentPeriodStart(timeframe, now) == GetCurrentPeriodStart(Some("weekly"), now)
  {
  }

  /** Tags are matched without regard to the case of their ASCII letters. */
  lemma TagCaseInsensitive(tag: string, now: int)
    ensures GetCurrentPeriodStart(Some(tag), now) == GetCurrentPeriodStart(Some(Lower(tag)), now)
  {
    LowerIdempotent(tag);
  }

  lemma UpperCaseDaily(now: int)
    ensures GetCurrentPeriodStart(Some("DAILY"), now) == GetCurrentPeriodStart(Some("daily"), now)
  {
    assert Lower("DAILY") == "daily";
  }
  // ---------------------------------------------------------------------
  // The two-digit-year rule of Date.UTC
  // ---------------------------------------------------------------------

  /** Outside the years 0..99 the function as written computes the intended start. */
  lemma AsWrittenAgreesOutsideTwoDigitYears(c: Cadence, now: int)
    requires !(0 <= GetUTCFullYear(now) <= 99)
    ensures PeriodStartAsWritten(c, now) == PeriodStart(c, now)
  {
    var y, m, d := GetUTCFullYear(now), GetUTCMonth(now), GetUTCDate(now);
    DateUTCAsIs(y, m, d);
    DateUTCAsIs(y, m, 1);
    DateUTCAsIs(y, 0, 1);
  }

  /** Outside the years 0..99, `Date.UTC` builds the midnight of the year as given. */
  lemma DateUTCAsIs(y: int, m: int, dt: int)
    requires !(0 <= y <= 99)
    ensures DateUTC(y, m, dt) == UTCMidnight(y, m, dt)
  {
  }

  /** A year 1800 years later starts more than a year after the following year ends. */
  lemma LaterCentury(y: int)
    ensures DayFromYear(y + 1) + 365 <= DayFromYear(1900 + y)
  {
    DayFromYearMonotone(y + 1, 1899 + y);
    DayFromYearStep(1899 + y);
  }

  /** A midnight built by MakeDay in year `y` is no earlier than 1 January of `y`. */
  lemma MakeDayInYear(y: int, m: int, dt: int)
    requires 0 <= m < 12 && dt >= 1
    ensures MakeDay(y, m, dt) >= DayFromYear(y)
  {
    MonthStartOrdered(y, 0, m);
  }

  /** `Date.UTC` with a year 0..99 builds a midnight no earlier than 1 January of 1900 + that year. */
  lemma DateUTCTwoDigit(y: int, m: int, dt: int)
    requires 0 <= y <= 99 && 0 <= m < 12 && dt >= 1
    ensures DateUTC(y, m, dt) >= DayFromYear(1900 + y) * MsPerDay
  {
    MakeDayInYear(1900 + y, m, dt);
  }

  /** `now` lies in the day `Day(now)`, which lies in the year `getUTCFullYear()` returns. */
  lemma DayAndYearOf(now: int)
    ensures Day(now) * MsPerDay <= now < Day(now) * MsPerDay + MsPerDay
    ensures DayFromYear(GetUTCFullYear(now)) <= Day(now) < DayFromYear(GetUTCFullYear(now) + 1)
  {
  }

  /** The `startOfDay` that `Date.UTC` builds for an instant of the years 0..99. */
  lemma TwoDigitStartOfDay(now: int)
    requires 0 <= GetUTCFullYear(now) <= 99
    ensures DateUTC(GetUTCFullYear(now), GetUTCMonth(now), GetUTCDate(now)) >= now + 358 * MsPerDay
    ensures DateUTC(GetUTCFullYear(now), GetUTCMonth(now), 1) >= now + 358 * MsPerDay
    ensures DateUTC(GetUTCFullYear(now), 0, 1) >= now + 358 * MsPerDay
  {
    var y, m, d := GetUTCFullYear(now), GetUTCMonth(now), GetUTCDate(now);
    DayAndYearOf(now);
    LaterCentury(y);
    DateUTCTwoDigit(y, m, d);
    DateUTCTwoDigit(y, m, 1);
    DateUTCTwoDigit(y, 0, 1);
  }

  /** The four branches of the function as written. */
  lemma AsWrittenBranches(now: int)
    ensures var y, m, d := GetUTCFullYear(now), GetUTCMonth(now), GetUTCDate(now);
      && PeriodStartAsWritten(Daily, now) == DateUTC(y, m, d)
      && PeriodStartAsWritten(Weekly, now) == BackToMondayFrom(DateUTC(y, m, d), GetUTCDay(now))
      && PeriodStartAsWritten(Monthly, now) == DateUTC(y, m, 1)
      && PeriodStartAsWritten(Yearly, now) == DateUTC(y, 0, 1)
  {
  }

  /**
   * For an instant in the years 0..99, `Date.UTC` reads the year as
   * 1900..1999, and the start computed for every cadence lies after `now`.
   */
  lemma TwoDigitYearStartsAfterNow(c: Cadence, now: int)
    requires 0 <= GetUTCFullYear(now) <= 99
    ensures PeriodStartAsWritten(c, now) > now
  {
    TwoDigitStartOfDay(now);
    AsWrittenBranches(now);
    BackToMondayShift(DateUTC(GetUTCFullYear(now), GetUTCMonth(now), GetUTCDate(now)), GetUTCDay(now));
  }

  /**
   * Midnight of 1 January of any year 0..99 is such an instant: the daily
   * start as written lies after it, the intended one is the instant itself.
   */
  lemma TwoDigitNewYearCounterexample(y: int)
    requires 0 <= y <= 99
    ensures var now := DayFromYear(y) * MsPerDay;
      && GetUTCFullYear(now) == y
      && PeriodStartAsWritten(Daily, now) > now
      && PeriodStart(Daily, now) == now
  {
    var n := DayFromYear(y);
    var now := n * MsPerDay;
    DayOfMidnight(n, 0);
    assert Day(now) == n;
    DayFromYearStep(y);
    YearUnique(n, y);
    assert GetUTCFullYear(now) == y;
    TwoDigitYearStartsAfterNow(Daily, now);
    DailyStart(now);
  }

  // ---------------------------------------------------------------------
  // Calendar scenarios
  // ---------------------------------------------------------------------

  lemma ScenarioYearStart(year: int)
    requires year == 2024
    ensures DayFromYear(year) == 19723
  {
    DayFromYearClosedForm(year);
  }

  lemma ScenarioDayNumber(year: int)
    requires year == 2024
    ensures DaysFromCivil(CivilDate(year, 2, 6)) == 19788
  {
    ScenarioYearStart(year);
  }

  lemma ScenarioMidnight(n: int, now: int)
    requires n == 19788 && now == n * MsPerDay + 10 * 3600000
    ensures Day(now) == 19788 && GetUTCDay(now) == 3
  {
    DayOfMidnight(n, 10 * 3600000);
  }

  lemma ScenarioCivil(year: int, n: int)
    requires year == 2024 && n == 19788
    ensures CivilFromDays(n) == CivilDate(year, 2, 6)
  {
    ScenarioYearStart(year);
    var d := CivilDate(year, 2, 6);
    assert DaysFromCivil(d) == n;
    CivilRoundTrip(d);
  }

  /**
   * Wednesday 2024-03-06T10:00:00Z is day 19788 since the epoch.  The year
   * is a parameter so that the calendar functions are not evaluated year
   * by year from 1970.
   */
  lemma ScenarioDate(year: int, now: int)
    requires year == 2024
    requires now == DaysFromCivil(CivilDate(year, 2, 6)) * MsPerDay + 10 * 3600000
    ensures DayFromYear(year) == 19723
    ensures Day(now) == 19788 && GetUTCDay(now) == 3
    ensures CivilFromDays(Day(now)) == CivilDate(year, 2, 6)
  {
    ScenarioYearStart(year);
    ScenarioDayNumber(year);
    ScenarioMidnight(DaysFromCivil(CivilDate(year, 2, 6)), now);
    ScenarioCivil(year, Day(now));
  }

  lemma ParseLiterals()
    ensures ParseCadence(Some("daily")) == Daily
    ensures ParseCadence(Some("weekly")) == Weekly
    ensures ParseCadence(Some("monthly")) == Monthly
    ensures ParseCadence(Some("yearly")) == Yearly
  {
    ParseDaily();
    ParseWeekly();
    ParseMonthly();
    ParseYearly();
  }

  lemma ParseDaily()
    ensures ParseCadence(Some("daily")) == Daily
  {
    LowerOfLowerCase("daily");
  }

  lemma ParseWeekly()
    ensures ParseCadence(Some("weekly")) == Weekly
  {
    LowerOfLowerCase("weekly");
  }

  lemma ParseMonthly()
    ensures ParseCadence(Some("monthly")) == Monthly
  {
    LowerOfLowerCase("monthly");
  }

  lemma ParseYearly()
    ensures ParseCadence(Some("yearly")) == Yearly
  {
    LowerOfLowerCase("yearly");
  }

  lemma WednesdayWeek(now: int)
    requires GetUTCDay(now) == 3
    ensures PeriodStart(Weekly, now) == (Day(now) - 2) * MsPerDay
  {
    WeeklyStartDay(now);
    WednesdayBack(GetUTCDay(now));
  }

  lemma WednesdayBack(w: int)
    requires w == 3
    ensures DaysSinceMonday(w) == 2
  {
  }

  lemma ScenarioMonday(year: int)
    requires year == 2024
    ensures DaysFromCivil(CivilDate(year, 2, 4)) == 19786
  {
    ScenarioYearStart(year);
  }

  /** On that Wednesday the week starts on Monday 2024-03-04. */
  lemma WeeklyScenario(year: int, now: int)
    requires year == 2024
    requires now == DaysFromCivil(CivilDate(year, 2, 6)) * MsPerDay + 10 * 3600000
    ensures GetCurrentPeriodStart(Some("weekly"), now) == DaysFromCivil(CivilDate(year, 2, 4)) * MsPerDay
  {
    ScenarioDate(year, now);
    ParseLiterals();
    WednesdayWeek(now);
    ScenarioMonday(year);
  }

  /** On that Wednesday the month starts on 2024-03-01. */
  lemma MonthlyScenario(year: int, now: int)
    requires year == 2024
    requires now == DaysFromCivil(CivilDate(year, 2, 6)) * MsPerDay + 10 * 3600000
    ensures GetCurrentPeriodStart(Some("monthly"), now) == DaysFromCivil(CivilDate(year, 2, 1)) * MsPerDay
  {
    ScenarioDate(year, now);
    ParseLiterals();
    MonthlyStartDay(now);
    assert DaysFromCivil(CivilDate(year, 2, 1)) == Day(now) - 5;
  }

  /** On that Wednesday the year starts on 2024-01-01. */
  lemma YearlyScenario(year: int, now: int)
    requires year == 2024
    requires now == DaysFromCivil(CivilDate(year, 2, 6)) * MsPerDay + 10 * 3600000
    ensures GetCurrentPeriodStart(Some("yearly"), now) == DaysFromCivil(CivilDate(year, 0, 1)) * MsPerDay
  {
    ScenarioDate(year, now);
    ParseLiterals();
    YearlyStartDay(now);
  }
}
