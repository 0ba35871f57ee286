/**
 * UTC calendar arithmetic as ECMAScript defines it for `Date` (section 21.4.1
 * of ECMA-262): a time value is a whole number of milliseconds since
 * 1970-01-01T00:00:00Z, days are counted from the same epoch, months are
 * numbered 0..11 as `getUTCMonth` returns them and dates 1..31 as
 * `getUTCDate` returns them. The proleptic Gregorian calendar is used for
 * every year, negative years included.
 */
module Calendar {

  const MsPerDay: int := 86400000

  /** A civil date: `month` is 0-based (January is 0), `date` is 1-based. */
  datatype CivilDate = CivilDate(year: int, month: int, date: int)

  predicate IsLeapYear(y: int) {
    y % 4 == 0 && (y % 100 != 0 || y % 400 == 0)
  }

  function DaysInYear(y: int): (n: int)
    ensures n == 365 || n == 366
  {
    if IsLeapYear(y) then 366 else 365
  }

  /** The day number of 1 January of year `y`: the lengths of the years between it and 1970. */
  function DayFromYear(y: int): int
    decreases if y < 1970 then 1970 - y else y - 1970
  {
    if y == 1970 then 0
    else if y > 1970 then DayFromYear(y - 1) + DaysInYear(y - 1)
    else DayFromYear(y + 1) - DaysInYear(y)
  }

  /**
   * Days from 1 January to the first day of month `m` (0..12; 12 is the
   * year's end), in closed form: 0, 31, 59, 90, ... in a common year, one
   * more from March on in a leap year (see MonthStartTable).
   */
  function MonthStart(y: int, m: int): (n: int)
    requires 0 <= m <= 12
  {
    (275 * (m + 1)) / 9 - 30 - (if m < 2 then 0 else if IsLeapYear(y) then 1 else 2)
  }

  function DaysInMonth(y: int, m: int): (n: int)
    requires 0 <= m < 12
    ensures 28 <= n <= 31
  {
    MonthStart(y, m + 1) - MonthStart(y, m)
  }

  predicate ValidDate(d: CivilDate) {
    0 <= d.month < 12 && 1 <= d.date <= DaysInMonth(d.year, d.month)
  }

  /** The day number of a valid civil date. */
  function DaysFromCivil(d: CivilDate): int
    requires 0 <= d.month < 12
  {
    DayFromYear(d.year) + MonthStart(d.year, d.month) + d.date - 1
  }

  lemma MonthStartOrdered(y: int, m: int, k: int)
    requires 0 <= m <= k <= 12
    ensures MonthStart(y, m) <= MonthStart(y, k)
    ensures m < k ==> MonthStart(y, m) < MonthStart(y, k)
    ensures MonthStart(y, 12) == DaysInYear(y)
  {
  }

  /** Floor division by 4, 100 or 400 goes up by one exactly at a multiple. */
  lemma DivSucc(x: int, c: int)
    requires c == 4 || c == 100 || c == 400
    ensures (x + 1) / c == x / c + (if (x + 1) % c == 0 then 1 else 0)
  {
    var q, r := x / c, x % c;
    assert x == c * q + r && 0 <= r < c;
    if r == c - 1 {
      assert x + 1 == c * (q + 1);
    } else {
      assert x + 1 == c * q + (r + 1);
    }
  }

  /** A multiple of 400 is a multiple of 100, and a multiple of 100 one of 4. */
  lemma MultipleChain(y: int)
    ensures y % 400 == 0 ==> y % 100 == 0
    ensures y % 100 == 0 ==> y % 4 == 0
  {
    if y % 400 == 0 {
      FourHundredsAreHundreds(y);
    }
    if y % 100 == 0 {
      HundredsAreFours(y);
    }
  }

  lemma FourHundredsAreHundreds(y: int)
    requires y % 400 == 0
    ensures y % 100 == 0
  {
    var q := y / 400;
    assert y == 100 * (4 * q);
  }

  lemma HundredsAreFours(y: int)
    requires y % 100 == 0
    ensures y % 4 == 0
  {
    var q := y / 100;
    assert y == 4 * (25 * q);
  }

  /** Consecutive years are DaysInYear apart. */
  lemma DayFromYearStep(y: int)
    ensures DayFromYear(y + 1) == DayFromYear(y) + DaysInYear(y)
  {
  }

  /** DayFromYear(y) in the closed form ECMA-262 writes it in. */
  function DayFromYearFormula(y: int): int {
    365 * (y - 1970) + (y - 1969) / 4 - (y - 1901) / 100 + (y - 1601) / 400
  }

  /** The year-by-year count agrees with the closed form of ECMA-262. */
  lemma {:induction false} DayFromYearClosedForm(y: int)
    ensures DayFromYear(y) == DayFromYearFormula(y)
    decreases if y < 1970 then 1970 - y else y - 1970
  {
    if y > 1970 {
      DayFromYearClosedForm(y - 1);
      ClosedFormStep(y - 1);
    } else if y < 1970 {
      DayFromYearClosedForm(y + 1);
      ClosedFormStep(y);
    }
  }

  /** Each of the three division terms of the closed form steps by one exactly at a multiple. */
  lemma QuarterStep(y: int)
    ensures (y - 1968) / 4 - (y - 1969) / 4 == (if y % 4 == 0 then 1 else 0)
  {
    DivSucc(y - 1969, 4);
    assert (y - 1968) % 4 == y % 4;
  }

  lemma CenturyStep(y: int)
    ensures (y - 1900) / 100 - (y - 1901) / 100 == (if y % 100 == 0 then 1 else 0)
  {
    DivSucc(y - 1901, 100);
    assert (y - 1900) % 100 == y % 100;
  }

  lemma FourCenturyStep(y: int)
    ensures (y - 1600) / 400 - (y - 1601) / 400 == (if y % 400 == 0 then 1 else 0)
  {
    DivSucc(y - 1601, 400);
    assert (y - 1600) % 400 == y % 400;
  }

  lemma ClosedFormStep(y: int)
    ensures DayFromYearFormula(y + 1) == DayFromYearFormula(y) + DaysInYear(y)
  {
    QuarterStep(y);
    CenturyStep(y);
    FourCenturyStep(y);
    MultipleChain(y);
  }

  lemma {:induction false} DayFromYearMonotone(a: int, b: int)
    requires a <= b
    ensures DayFromYear(a) <= DayFromYear(b)
    ensures a < b ==> DayFromYear(a + 1) <= DayFromYear(b)
    decreases b - a
  {
    if a < b {
      DayFromYearStep(a);
      DayFromYearMonotone(a + 1, b);
    }
  }

  /** The year containing day `n`, found by searching upwards from `y`. */
  function YearAbove(n: int, y: int): (r: int)
    requires DayFromYear(y) <= n
    ensures DayFromYear(r) <= n < DayFromYear(r + 1)
    decreases n - DayFromYear(y)
  {
    DayFromYearStep(y);
    if n < DayFromYear(y + 1) then y else YearAbove(n, y + 1)
  }

  /** The year containing day `n`, found by searching downwards from `y`. */
  function YearBelow(n: int, y: int): (r: int)
    requires n < DayFromYear(y + 1)
    ensures DayFromYear(r) <= n < DayFromYear(r + 1)
    decreases DayFromYear(y + 1) - n
  {
    DayFromYearStep(y - 1);
    if DayFromYear(y) <= n then y else YearBelow(n, y - 1)
  }

  /** YearFromTime of ECMA-262, on day numbers. */
  function YearFromDay(n: int): (y: int)
    ensures DayFromYear(y) <= n < DayFromYear(y + 1)
  {
    if n >= 0 then YearAbove(n, 1970) else YearBelow(n, 1969)
  }

  /** A day belongs to exactly one year. */
  lemma YearUnique(n: int, y: int)
    requires DayFromYear(y) <= n < DayFromYear(y + 1)
    ensures YearFromDay(n) == y
  {
    var z := YearFromDay(n);
    if z < y {
      DayFromYearMonotone(z, y);
    } else if y < z {
      DayFromYearMonotone(y, z);
    }
  }

  /** The month containing day-of-year `doy`, searching upwards from month `m`. */
  function MonthFrom(y: int, doy: int, m: int): (r: int)
    requires 0 <= m < 12 && MonthStart(y, m) <= doy < MonthStart(y, 12)
    ensures m <= r < 12 && MonthStart(y, r) <= doy < MonthStart(y, r + 1)
    decreases 12 - m
  {
    if doy < MonthStart(y, m + 1) then m else MonthFrom(y, doy, m + 1)
  }

  lemma MonthUnique(y: int, doy: int, m: int)
    requires 0 <= m < 12 && MonthStart(y, m) <= doy < MonthStart(y, m + 1)
    ensures MonthFrom(y, doy, 0) == m
  {
    var r := MonthFrom(y, doy, 0);
    if r < m {
      MonthStartOrdered(y, r + 1, m);
    } else if m < r {
      MonthStartOrdered(y, m + 1, r);
    }
  }

  /** The civil date of day number `n` (YearFromTime, MonthFromTime, DateFromTime). */
  function CivilFromDays(n: int): (d: CivilDate)
    ensures ValidDate(d) && DaysFromCivil(d) == n
  {
    var y := YearFromDay(n);
    DayFromYearStep(y);
    MonthStartOrdered(y, 0, 12);
    var m := MonthFrom(y, n - DayFromYear(y), 0);
    CivilDate(y, m, n - DayFromYear(y) - MonthStart(y, m) + 1)
  }

  /** CivilFromDays recomputes a date from its year and month once both are known. */
  lemma CivilFromParts(d: CivilDate, n: int, doy: int)
    requires ValidDate(d)
    requires n == DaysFromCivil(d) && doy == n - DayFromYear(d.year)
    requires YearFromDay(n) == d.year
    requires MonthFrom(d.year, doy, 0) == d.month
    ensures CivilFromDays(n) == d
  {
  }

  /** Every valid civil date is the date of its own day number. */
  lemma CivilRoundTrip(d: CivilDate)
    requires ValidDate(d)
    ensures CivilFromDays(DaysFromCivil(d)) == d
  {
    var n := DaysFromCivil(d);
    MonthStartOrdered(d.year, d.month + 1, 12);
    DayFromYearStep(d.year);
    var doy := n - DayFromYear(d.year);
    assert MonthStart(d.year, d.month) <= doy < MonthStart(d.year, d.month + 1);
    YearUnique(n, d.year);
    MonthUnique(d.year, doy, d.month);
    CivilFromParts(d, n, doy);
  }

  /** Two day numbers with the same civil date are the same day. */
  lemma CivilInjective(a: int, b: int)
    requires CivilFromDays(a) == CivilFromDays(b)
    ensures a == b
  {
  }

  // ---------------------------------------------------------------------
  // Time values (milliseconds) and the Date accessors used by the source.
  // ---------------------------------------------------------------------

  /** Day(t) = floor(t / msPerDay). */
  function Day(t: int): int {
    t / MsPerDay
  }

  function TimeWithinDay(t: int): (r: int)
    ensures 0 <= r < MsPerDay && t == Day(t) * MsPerDay + r
  {
    t % MsPerDay
  }

  function GetUTCFullYear(t: int): int {
    CivilFromDays(Day(t)).year
  }

  function GetUTCMonth(t: int): (m: int)
    ensures 0 <= m < 12
  {
    CivilFromDays(Day(t)).month
  }

  function GetUTCDate(t: int): (d: int)
    ensures 1 <= d <= 31
  {
    CivilFromDays(Day(t)).date
  }

  /** WeekDay(t) = (Day(t) + 4) modulo 7: 1970-01-01 was a Thursday; Sunday is 0. */
  function GetUTCDay(t: int): (w: int)
    ensures 0 <= w < 7
  {
    (Day(t) + 4) % 7
  }

  /** MakeDay of ECMA-262: month `m` may overflow into neighbouring years, `dt` into neighbouring months. */
  function MakeDay(y: int, m: int, dt: int): int {
    var ym := y + m / 12;
    var mn := m % 12;
    DaysFromCivil(CivilDate(ym, mn, 1)) + dt - 1
  }

  function MakeDate(day: int, time: int): int {
    day * MsPerDay + time
  }

  /** MakeFullYear of ECMA-262: `Date.UTC` reads the years 0..99 as 1900..1999. */
  function MakeFullYear(y: int): (r: int)
    ensures 0 <= y <= 99 ==> r == 1900 + y
    ensures !(0 <= y <= 99) ==> r == y
  {
    if 0 <= y <= 99 then 1900 + y else y
  }

  /** `Date.UTC(y, m, dt, 0, 0, 0, 0)` (TimeClip is not modelled). */
  function DateUTC(y: int, m: int, dt: int): int {
    MakeDate(MakeDay(MakeFullYear(y), m, dt), 0)
  }

  /** `t.setUTCDate(dt)`: same year, month and time of day, date `dt` (which may leave the month). */
  function SetUTCDate(t: int, dt: int): int {
    MakeDate(MakeDay(GetUTCFullYear(t), GetUTCMonth(t), dt), TimeWithinDay(t))
  }

  lemma DayOfMidnight(n: int, r: int)
    requires 0 <= r < MsPerDay
    ensures Day(n * MsPerDay + r) == n && TimeWithinDay(n * MsPerDay + r) == r
  {
  }

  /** Setting the date of a time value moves it by whole days within its month's frame. */
  lemma SetUTCDateShift(t: int, dt: int)
    ensures SetUTCDate(t, dt) == t + (dt - GetUTCDate(t)) * MsPerDay
  {
    var c := CivilFromDays(Day(t));
    assert c.month / 12 == 0 && c.month % 12 == c.month;
    var day := MakeDay(c.year, c.month, dt);
    assert day == Day(t) + (dt - c.date);
    assert day * MsPerDay == Day(t) * MsPerDay + (dt - c.date) * MsPerDay;
  }

  /** Moving the date back by `back` days moves the time value back by `back` whole days. */
  lemma SetUTCDateBack(t: int, back: int)
    ensures SetUTCDate(t, GetUTCDate(t) - back) == t - back * MsPerDay
  {
    SetUTCDateShift(t, GetUTCDate(t) - back);
  }
}
