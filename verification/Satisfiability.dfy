/** When a schedule fires at all. A weekday restriction never makes a schedule empty: seven leap years
    in a row, four years apart, put any date of a leap year on all seven weekdays. */
module Satisfiability {
  import opened Common
  import opened Calendar
  import opened FireTime
  import opened CycleBound

  /** Some listed month has some listed day, allowing February 29 days. */
  predicate Realizable(s: Schedule)
    requires InRange(s)
  {
    exists month, day :: month in s.months && day in s.daysOfMonth && day <= DaysInMonth(true, month)
  }

  /** What parseCron guarantees of its result. */
  predicate IsParsed(s: Schedule) {
    InRange(s) && s.minutes != {} && s.hours != {} && s.daysOfMonth != {} && s.months != {} && s.daysOfWeek != {}
  }

  lemma LeapYearsFourApart(j: int)
    requires 0 <= j <= 6
    ensures IsLeap(2004 + 4 * j)
    ensures DayFromYear(2004 + 4 * j) == DayFromYear(2004) + 1461 * j
  {
  }

  /** From 2004 to 2028 every date of a leap year falls on every weekday. */
  lemma EveryWeekdayOccurs(month: int, day: int, weekday: int) returns (year: int)
    requires 1 <= month <= 12 && 1 <= day <= DaysInMonth(true, month) && 0 <= weekday <= 6
    ensures 2004 <= year <= 2028 && IsLeap(year)
    ensures ValidDate(Date(year, month, day)) && Weekday(DayNumber(year, month, day)) == weekday
  {
    LeapYearsFourApart(0);
    var first := DayNumber(2004, month, day);
    var j := 3 * (weekday - Weekday(first)) % 7;
    LeapYearsFourApart(j);
    year := 2004 + 4 * j;
    assert DayNumber(year, month, day) == first + 1461 * j;
    FiveDaysOnPerLeapCycle(first, j, weekday);
  }

  lemma FiveDaysOnPerLeapCycle(first: int, j: int, weekday: int)
    requires 0 <= weekday <= 6 && j == 3 * (weekday - Weekday(first)) % 7
    ensures Weekday(first + 1461 * j) == weekday
  {
    var d := weekday - Weekday(first);
    var p := 3 * d / 7;
    var q := (first + 4) / 7;
    assert 3 * d == 7 * p + j && first + 4 == 7 * q + Weekday(first);
    DivideBy(first + 1461 * j + 4, 7, q + 208 * j + 2 * d - 5 * p, weekday);
  }

  lemma SomeFireTime(s: Schedule) returns (t: int)
    requires IsParsed(s) && Realizable(s)
    ensures IsFireTime(s, t)
  {
    HasElements(s);
    var month, day :| month in s.months && day in s.daysOfMonth && day <= DaysInMonth(true, month);
    var weekday :| weekday in s.daysOfWeek;
    var hour :| hour in s.hours;
    var minute :| minute in s.minutes;
    var year := EveryWeekdayOccurs(month, day, weekday);
    var dayNumber := DayNumber(year, month, day);
    DayNumberRoundTrip(Date(year, month, day));
    PartsOfTime(dayNumber, hour, minute);
    t := TimeOf(dayNumber, hour, minute);
  }

  lemma HasElements(s: Schedule)
    requires IsParsed(s)
    ensures exists v :: v in s.daysOfWeek
    ensures exists v :: v in s.hours
    ensures exists v :: v in s.minutes
  {
    HasElement(s.daysOfWeek);
    HasElement(s.hours);
    HasElement(s.minutes);
  }

  /** A realizable schedule fires within 400 years of any reference time, on either side. */
  lemma FiresWithinCycle(s: Schedule, from: int, direction: Direction) returns (u: int)
    requires IsParsed(s) && Realizable(s)
    ensures IsFireTime(s, u) && Accepts(direction, from, u) && Ahead(direction, from, u) <= MS_PER_CYCLE
  {
    var t := SomeFireTime(s);
    var cycles := CyclesBetween(from, t, direction);
    u := t + MS_PER_CYCLE * cycles;
    FireTimesRepeat(s, t, cycles, u);
  }

  lemma CyclesBetween(from: int, t: int, direction: Direction) returns (cycles: int)
    ensures var u := t + MS_PER_CYCLE * cycles;
            Accepts(direction, from, u) && Ahead(direction, from, u) <= MS_PER_CYCLE
  {
    var k := (from - t) / MS_PER_CYCLE;
    cycles := if direction == 1 then k + 1 else k;
    assert from - t == MS_PER_CYCLE * k + (from - t) % MS_PER_CYCLE;
  }

  lemma FireTimeRealizes(s: Schedule, t: int)
    requires InRange(s) && IsFireTime(s, t)
    ensures Realizable(s)
  {
    var d := DateOf(t);
    assert d.month in s.months && d.day in s.daysOfMonth && d.day <= DaysInMonth(true, d.month);
  }

  /** Over the unbounded calendar, a parsed schedule fires before and after every time exactly when it
      is realizable; otherwise it never fires. */
  lemma FiresIffRealizable(s: Schedule, from: int, direction: Direction)
    requires IsParsed(s)
    ensures (exists u :: IsFireTime(s, u) && Accepts(direction, from, u)) <==> Realizable(s)
  {
    if Realizable(s) {
      var u := FiresWithinCycle(s, from, direction);
    }
    if u :| IsFireTime(s, u) && Accepts(direction, from, u) {
      FireTimeRealizes(s, u);
    }
  }

  /** So for reference times a cycle away from the edge of representable time the search finds
      a fire time exactly when the schedule is realizable. */
  lemma SearchSucceedsIffRealizable(s: Schedule, from: int, direction: Direction, r: Result<int>)
    requires IsParsed(s) && Finite(from) && Finite(from + MS_PER_CYCLE * direction)
    requires IsAnswer(FireTimes(s), from, direction, r)
    ensures r.Ok? <==> Realizable(s)
  {
    if r.Ok? {
      FireTimeRealizes(s, r.value);
    } else if Realizable(s) {
      var u := FiresWithinCycle(s, from, direction);
      RepresentableFire(s, from, direction, u);
    }
  }

  lemma RepresentableFire(s: Schedule, from: int, direction: Direction, u: int)
    requires Finite(from) && Finite(from + MS_PER_CYCLE * direction)
    requires IsFireTime(s, u) && Accepts(direction, from, u) && Ahead(direction, from, u) <= MS_PER_CYCLE
    ensures u in FireTimes(s)
  {
  }
}
