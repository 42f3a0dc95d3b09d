/** The UTC calendar that a JavaScript `Date` exposes (ECMA-262, section 21.4.1): days since
    1970-01-01 to and from a proleptic Gregorian date, over all integers. */
module Calendar {
  import opened Common

  const DAYS_PER_CYCLE: int := 146097
  const YEARS_PER_CYCLE: int := 400
  const MS_PER_MINUTE: int := 60000
  const MS_PER_HOUR: int := 3600000
  const MS_PER_DAY: int := 86400000
  const MS_PER_CYCLE: int := DAYS_PER_CYCLE * MS_PER_DAY
  /** Times beyond this magnitude are not representable by a Date (they become NaN). */
  const MAX_TIME: int := 100_000_000 * MS_PER_DAY

  predicate Finite(t: int) {
    -MAX_TIME <= t <= MAX_TIME
  }

  datatype Date = Date(year: int, month: int, day: int)

  predicate IsLeap(year: int) {
    year % 4 == 0 && (year % 100 != 0 || year % 400 == 0)
  }

  function DaysInMonth(leap: bool, month: int): (n: int)
    requires 1 <= month <= 12
    ensures 28 <= n <= 31
  {
    if month == 2 then (if leap then 29 else 28)
    else if month == 4 || month == 6 || month == 9 || month == 11 then 30
    else 31
  }

  /** Days from the start of the year to the start of the month; month 13 is the year's end. */
  function DaysBeforeMonth(leap: bool, month: int): int
    requires 1 <= month <= 13
  {
    [0, 31, 59, 90, 120, 151, 181, 212, 243, 273, 304, 334, 365][month - 1] + (if leap && month > 2 then 1 else 0)
  }

  /** DayFromYear of ECMA-262, section 21.4.1.3. */
  function DayFromYear(year: int): int {
    365 * (year - 1970) + (year - 1969) / 4 - (year - 1901) / 100 + (year - 1601) / 400
  }

  predicate ValidDate(d: Date) {
    1 <= d.month <= 12 && 1 <= d.day <= DaysInMonth(IsLeap(d.year), d.month)
  }

  /** The day that setUTCFullYear reaches: an overlong day of month spills into later months. */
  function DayNumber(year: int, month: int, day: int): int
    requires 1 <= month <= 12
  {
    DayFromYear(year) + DaysBeforeMonth(IsLeap(year), month) + day - 1
  }

  /** YearFromTime of ECMA-262: the largest year that starts no later than `dayNumber`,
      searched from `year` downwards or upwards. */
  function YearFrom(dayNumber: int, year: int): (y: int)
    ensures DayFromYear(y) <= dayNumber < DayFromYear(y + 1)
    decreases dayNumber < DayFromYear(year),
              if dayNumber < DayFromYear(year) then DayFromYear(year) - dayNumber else dayNumber - DayFromYear(year)
  {
    YearLength(year - 1);
    YearLength(year);
    if dayNumber < DayFromYear(year) then YearFrom(dayNumber, year - 1)
    else if dayNumber >= DayFromYear(year + 1) then YearFrom(dayNumber, year + 1)
    else year
  }

  function YearOf(dayNumber: int): (y: int)
    ensures DayFromYear(y) <= dayNumber < DayFromYear(y + 1)
  {
    YearFrom(dayNumber, 1970)
  }

  function MonthFrom(leap: bool, dayInYear: int, month: int): (m: int)
    requires 1 <= month <= 12
    requires DaysBeforeMonth(leap, month) <= dayInYear < DaysBeforeMonth(leap, 13)
    ensures month <= m <= 12
    ensures DaysBeforeMonth(leap, m) <= dayInYear < DaysBeforeMonth(leap, m + 1)
    decreases 12 - month
  {
    if dayInYear < DaysBeforeMonth(leap, month + 1) then month else MonthFrom(leap, dayInYear, month + 1)
  }

  /** The calendar date that the getUTC accessors of a Date report. */
  function CivilDate(dayNumber: int): (d: Date)
    ensures ValidDate(d)
  {
    var year := YearOf(dayNumber);
    var leap := IsLeap(year);
    YearLength(year);
    var dayInYear := dayNumber - DayFromYear(year);
    var month := MonthFrom(leap, dayInYear, 1);
    Date(year, month, dayInYear - DaysBeforeMonth(leap, month) + 1)
  }

  /** getUTCDay: 0 is Sunday; 1970-01-01 was a Thursday. */
  function Weekday(dayNumber: int): (w: int)
    ensures 0 <= w <= 6
  {
    (dayNumber + 4) % 7
  }

  lemma FourYears(year: int)
    ensures (year - 1968) / 4 - (year - 1969) / 4 == if year % 4 == 0 then 1 else 0
  {
  }

  lemma Centuries(year: int)
    ensures (year - 1900) / 100 - (year - 1901) / 100 == if year % 100 == 0 then 1 else 0
  {
  }

  lemma FourCenturies(year: int)
    ensures (year - 1600) / 400 - (year - 1601) / 400 == if year % 400 == 0 then 1 else 0
  {
  }

  lemma LeapYearsNest(year: int)
    ensures year % 400 == 0 ==> year % 100 == 0
    ensures year % 100 == 0 ==> year % 4 == 0
  {
  }

  lemma YearLength(year: int)
    ensures DayFromYear(year + 1) - DayFromYear(year) == if IsLeap(year) then 366 else 365
  {
    FourYears(year);
    Centuries(year);
    FourCenturies(year);
    LeapYearsNest(year);
  }

  lemma ShiftDiv(x: int, k: int)
    ensures (x + 400 * k) / 4 == x / 4 + 100 * k && (x + 400 * k) % 4 == x % 4
    ensures (x + 400 * k) / 100 == x / 100 + 4 * k && (x + 400 * k) % 100 == x % 100
    ensures (x + 400 * k) / 400 == x / 400 + k && (x + 400 * k) % 400 == x % 400
  {
  }

  /** 400 Gregorian years are 146097 days, and leap years repeat with them. */
  lemma CycleShift(year: int, cycles: int)
    ensures DayFromYear(year + YEARS_PER_CYCLE * cycles) == DayFromYear(year) + DAYS_PER_CYCLE * cycles
    ensures IsLeap(year + YEARS_PER_CYCLE * cycles) == IsLeap(year)
  {
    ShiftDiv(year, cycles);
    ShiftDiv(year - 1969, cycles);
    ShiftDiv(year - 1901, cycles);
    ShiftDiv(year - 1601, cycles);
  }

  lemma MonthLength(leap: bool, month: int)
    requires 1 <= month <= 12
    ensures DaysBeforeMonth(leap, month + 1) == DaysBeforeMonth(leap, month) + DaysInMonth(leap, month)
  {
  }

  lemma {:induction false} MonthsInOrder(leap: bool, a: int, b: int)
    requires 1 <= a < b <= 13
    ensures DaysBeforeMonth(leap, a) + DaysInMonth(leap, a) <= DaysBeforeMonth(leap, b)
    decreases b
  {
    MonthLength(leap, b - 1);
    if a < b - 1 { MonthsInOrder(leap, a, b - 1); }
  }

  lemma {:induction false} YearsInOrder(a: int, b: int)
    requires a < b
    ensures DayFromYear(a + 1) <= DayFromYear(b)
    decreases b - a
  {
    YearLength(b - 1);
    if a + 1 < b { YearsInOrder(a, b - 1); }
  }

  predicate DateBefore(a: Date, b: Date) {
    a.year < b.year || (a.year == b.year && (a.month < b.month || (a.month == b.month && a.day < b.day)))
  }

  lemma DayInYear(d: Date)
    requires ValidDate(d)
    ensures DayFromYear(d.year) <= DayNumber(d.year, d.month, d.day) < DayFromYear(d.year + 1)
  {
    YearLength(d.year);
    MonthsInOrder(IsLeap(d.year), d.month, 13);
  }

  /** Valid dates in calendar order have day numbers in the same order. */
  lemma DatesInOrder(a: Date, b: Date)
    requires ValidDate(a) && ValidDate(b) && DateBefore(a, b)
    ensures DayNumber(a.year, a.month, a.day) < DayNumber(b.year, b.month, b.day)
  {
    DayInYear(a);
    DayInYear(b);
    if a.year < b.year {
      YearsInOrder(a.year, b.year);
    } else if a.month < b.month {
      MonthsInOrder(IsLeap(a.year), a.month, b.month);
    }
  }

  /** The two directions of the calendar are mutually inverse. */
  lemma CivilRoundTrip(dayNumber: int)
    ensures var d := CivilDate(dayNumber); DayNumber(d.year, d.month, d.day) == dayNumber
  {
  }

  lemma DayNumberRoundTrip(d: Date)
    requires ValidDate(d)
    ensures CivilDate(DayNumber(d.year, d.month, d.day)) == d
  {
    var n := DayNumber(d.year, d.month, d.day);
    var e := CivilDate(n);
    CivilRoundTrip(n);
    if DateBefore(d, e) {
      DatesInOrder(d, e);
    } else if DateBefore(e, d) {
      DatesInOrder(e, d);
    }
  }

  /** The test that the calendar search uses to reject 31 June and the like: the accessors give back
      the requested year, month and day exactly when such a date exists. */
  lemma SpillDetectsInvalidDates(year: int, month: int, day: int)
    requires 1 <= month <= 12
    ensures CivilDate(DayNumber(year, month, day)) == Date(year, month, day) <==> ValidDate(Date(year, month, day))
  {
    if ValidDate(Date(year, month, day)) { DayNumberRoundTrip(Date(year, month, day)); }
  }

  lemma AddWeeks(dayNumber: int, weeks: int)
    ensures Weekday(dayNumber + 7 * weeks) == Weekday(dayNumber)
  {
  }

  /** Weekdays repeat after 400 years: 146097 days are 20871 whole weeks. */
  lemma WeekdaysRepeat(dayNumber: int, cycles: int, later: int)
    requires later == dayNumber + DAYS_PER_CYCLE * cycles
    ensures Weekday(later) == Weekday(dayNumber)
  {
    AddWeeks(dayNumber, 20871 * cycles);
    assert later == dayNumber + 7 * (20871 * cycles);
  }

  lemma LaterDate(d: Date, cycles: int)
    requires ValidDate(d)
    ensures var later := d.(year := d.year + YEARS_PER_CYCLE * cycles);
            ValidDate(later) &&
            DayNumber(later.year, d.month, d.day) == DayNumber(d.year, d.month, d.day) + DAYS_PER_CYCLE * cycles
  {
    CycleShift(d.year, cycles);
  }

  /** Month and day repeat after 400 years. */
  lemma DatesRepeat(dayNumber: int, d: Date, cycles: int, later: int)
    requires d == CivilDate(dayNumber)
    requires later == dayNumber + DAYS_PER_CYCLE * cycles
    ensures CivilDate(later) == d.(year := d.year + YEARS_PER_CYCLE * cycles)
  {
    CivilRoundTrip(dayNumber);
    LaterDate(d, cycles);
    DayNumberRoundTrip(d.(year := d.year + YEARS_PER_CYCLE * cycles));
  }

  /** Zeller's congruence: the weekday, 0 on Sunday, straight from year, month and day. January and February count
      as months 13 and 14 of the year before. */
  function ZellerWeekday(d: Date): int {
    var year, month := if d.month <= 2 then d.year - 1 else d.year, if d.month <= 2 then d.month + 12 else d.month;
    (d.day + 13 * (month + 1) / 5 + year + year / 4 - year / 100 + year / 400 + 6) % 7
  }

  /** Days counted to the end of `year`, with all leap days of the years up to it. */
  lemma DaysToYearEnd(year: int)
    ensures DayFromYear(year + 1) == 365 * year + year / 4 - year / 100 + year / 400 - 719162
  {
  }

  /** Days to the start of a month, from the end of the year that ZellerWeekday takes it into. */
  function MonthOffset(month: int): int
    requires 1 <= month <= 12
  {
    [0, 31, -306, -275, -245, -214, -184, -153, -122, -92, -61, -31][month - 1]
  }

  lemma DayNumberFromMarch(d: Date)
    requires 1 <= d.month <= 12
    ensures DayNumber(d.year, d.month, d.day) ==
            DayFromYear((if d.month <= 2 then d.year - 1 else d.year) + 1) + MonthOffset(d.month) + d.day - 1
  {
    YearLength(d.year);
  }

  /** The month term of the congruence is right up to whole weeks. */
  lemma MonthTerm(month: int) returns (weeks: int)
    requires 1 <= month <= 12
    ensures MonthOffset(month) == 13 * ((if month <= 2 then month + 12 else month) + 1) / 5 + 7 * weeks + 6
  {
    weeks := [-6, -2, -46, -42, -38, -34, -30, -26, -22, -18, -14, -10][month - 1];
  }

  lemma WeekdayUpToWeeks(n: int, weeks: int, m: int)
    requires n + 4 == 7 * weeks + m
    ensures Weekday(n) == m % 7
  {
    DivideBy(n + 4, 7, weeks + m / 7, m % 7);
  }

  lemma ZellerTerms(n: int, day: int, year: int, leaps: int, term: int, weeks: int)
    requires n == 365 * year + leaps - 719162 + (term + 7 * weeks + 6) + day - 1
    ensures Weekday(n) == (day + term + year + leaps + 6) % 7
  {
    WeekdayUpToWeeks(n, 52 * year - 102737 + weeks, day + term + year + leaps + 6);
  }

  /** The weekday of every date is the one that Zeller's congruence gives. */
  lemma WeekdayOfDate(d: Date)
    requires ValidDate(d)
    ensures Weekday(DayNumber(d.year, d.month, d.day)) == ZellerWeekday(d)
  {
    var year, month := if d.month <= 2 then d.year - 1 else d.year, if d.month <= 2 then d.month + 12 else d.month;
    DayNumberFromMarch(d);
    DaysToYearEnd(year);
    var weeks := MonthTerm(d.month);
    var leaps, term := year / 4 - year / 100 + year / 400, 13 * (month + 1) / 5;
    ZellerTerms(DayNumber(d.year, d.month, d.day), d.day, year, leaps, term, weeks);
    assert ZellerWeekday(d) == (d.day + term + year + leaps + 6) % 7;
  }

  /** The last day of a month. */
  predicate IsLastDay(d: Date) {
    d.day == (if d.month in {1, 3, 5, 7, 8, 10, 12} then 31
              else if d.month in {4, 6, 9, 11} then 30
              else if d.year % 4 == 0 && (d.year % 100 != 0 || d.year % 400 == 0) then 29
              else 28)
  }

  function NextDate(d: Date): Date {
    if !IsLastDay(d) then d.(day := d.day + 1)
    else if d.month < 12 then Date(d.year, d.month + 1, 1)
    else Date(d.year + 1, 1, 1)
  }

  lemma NextDateIsNextDay(d: Date)
    requires ValidDate(d)
    ensures var next := NextDate(d);
            ValidDate(next) && DayNumber(next.year, next.month, next.day) == DayNumber(d.year, d.month, d.day) + 1
  {
    if d.day == DaysInMonth(IsLeap(d.year), d.month) {
      MonthLength(IsLeap(d.year), d.month);
      YearLength(d.year);
    }
  }

  lemma NextDayIsNextWeekday(n: int)
    ensures Weekday(n + 1) == (Weekday(n) + 1) % 7
  {
    WeekdayUpToWeeks(n + 1, (n + 4) / 7, Weekday(n) + 1);
  }

  /** Days are counted from 1 January 1970, a Thursday, date by date and weekday by weekday. */
  lemma DaysInSuccession(d: Date)
    requires ValidDate(d)
    ensures DayNumber(1970, 1, 1) == 0 && Weekday(0) == 4
    ensures var n, next := DayNumber(d.year, d.month, d.day), NextDate(d);
            ValidDate(next) && DayNumber(next.year, next.month, next.day) == n + 1 &&
            Weekday(n + 1) == (Weekday(n) + 1) % 7
  {
    NextDateIsNextDay(d);
    NextDayIsNextWeekday(DayNumber(d.year, d.month, d.day));
  }
}
