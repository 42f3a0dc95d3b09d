/** The bidirectional calendar search of cron.ts: nested loops over years, months, days, hours and
    minutes in the order of the direction, skipping dates that do not exist. */
module CalendarSearch {
  import opened Common
  import opened Calendar
  import opened FireTime
  import opened CycleBound

  predicate Before(direction: Direction, a: int, b: int) {
    if direction == 1 then a < b else b < a
  }

  predicate Ordered(direction: Direction, values: seq<int>) {
    forall i, j :: 0 <= i < j < |values| ==> Before(direction, values[i], values[j])
  }

  /** `values` lists the set in the order of the direction. */
  ghost predicate ListsInOrder(direction: Direction, values: seq<int>, all: set<int>) {
    Ordered(direction, values) && forall v :: v in values <==> v in all
  }

  method SortedCronValues(values: set<int>, direction: Direction) returns (sorted: seq<int>)
    ensures ListsInOrder(direction, sorted, values)
  {
    sorted := [];
    var rest := values;
    while rest != {}
      invariant rest <= values
      invariant ListsInOrder(direction, sorted, values - rest)
      decreases rest
    {
      HasElement(rest);
      var v :| v in rest; // a Set is iterated in insertion order, which the sort forgets
      var k := 0;
      while k < |sorted| && Before(direction, sorted[k], v)
        invariant 0 <= k <= |sorted|
        invariant forall i :: 0 <= i < k ==> Before(direction, sorted[i], v)
      {
        k := k + 1;
      }
      ghost var was := sorted;
      sorted := sorted[..k] + [v] + sorted[k..];
      InsertKeepsOrder(direction, was, k, v);
      rest := rest - {v};
    }
  }

  lemma InsertKeepsOrder(direction: Direction, s: seq<int>, k: nat, v: int)
    requires k <= |s| && Ordered(direction, s) && v !in s
    requires forall i :: 0 <= i < k ==> Before(direction, s[i], v)
    requires k < |s| ==> !Before(direction, s[k], v)
    ensures Ordered(direction, s[..k] + [v] + s[k..])
    ensures forall x :: x in s[..k] + [v] + s[k..] <==> x in s || x == v
  {
    var inserted := s[..k] + [v] + s[k..];
    forall i, j | 0 <= i < j < |inserted|
      ensures Before(direction, inserted[i], inserted[j])
    {
      var before, after := if i < k then i else i - 1, if j < k then j else j - 1;
      if i == k {
        AfterInserted(direction, s, k, v, after);
      } else if j != k {
        assert inserted[i] == s[before] && inserted[j] == s[after];
      }
    }
    InsertedMembers(s, k, v);
  }

  lemma AfterInserted(direction: Direction, s: seq<int>, k: nat, v: int, i: nat)
    requires k <= i < |s| && Ordered(direction, s) && v !in s && !Before(direction, s[k], v)
    ensures Before(direction, v, s[i])
  {
    assert s[k] in s;
    if i > k { assert Before(direction, s[k], s[i]); }
  }

  lemma InsertedMembers(s: seq<int>, k: nat, v: int)
    requires k <= |s|
    ensures forall x :: x in s[..k] + [v] + s[k..] <==> x in s || x == v
  {
    assert s == s[..k] + s[k..];
  }

  /** The two inner loops: the nearest candidate on one day that the schedule's day fields match. */
  method FindInDay(s: Schedule, from: int, direction: Direction, dayNumber: int, hours: seq<int>, minutes: seq<int>)
    returns (r: Option<int>)
    requires InRange(s) && MatchesDay(s, dayNumber)
    requires ListsInOrder(direction, hours, s.hours) && ListsInOrder(direction, minutes, s.minutes)
    ensures r.None? ==> forall u :: Candidate(s, from, direction, u) ==> DayOf(u) != dayNumber
    ensures r.Some? ==> Candidate(s, from, direction, r.value) && DayOf(r.value) == dayNumber
    ensures r.Some? ==>
              forall u :: Candidate(s, from, direction, u) && DayOf(u) == dayNumber ==> NoLater(direction, r.value, u)
  {
    var i := 0;
    while i < |hours|
      invariant 0 <= i <= |hours|
      invariant forall u :: Candidate(s, from, direction, u) && DayOf(u) == dayNumber ==> HourOf(u) in hours[i..]
    {
      var j := 0;
      while j < |minutes|
        invariant 0 <= j <= |minutes|
        invariant forall u :: Candidate(s, from, direction, u) && DayOf(u) == dayNumber && HourOf(u) == hours[i] ==>
                                MinuteOf(u) in minutes[j..]
      {
        assert hours[i] in hours && minutes[j] in minutes;
        var candidateTime := TimeOf(dayNumber, hours[i], minutes[j]);
        PartsOfTime(dayNumber, hours[i], minutes[j]);
        if Finite(candidateTime) && Accepts(direction, from, candidateTime) {
          forall u | Candidate(s, from, direction, u) && DayOf(u) == dayNumber
            ensures NoLater(direction, candidateTime, u)
          {
            TimeParts(u);
            FirstOfOrdered(direction, hours, i, HourOf(u));
            if HourOf(u) == hours[i] { FirstOfOrdered(direction, minutes, j, MinuteOf(u)); }
            PartsInOrder(direction, dayNumber, hours[i], minutes[j], HourOf(u), MinuteOf(u));
          }
          return Some(candidateTime);
        }
        forall u | Candidate(s, from, direction, u) && DayOf(u) == dayNumber && HourOf(u) == hours[i]
          ensures MinuteOf(u) in minutes[j + 1..]
        {
          TimeParts(u);
        }
        j := j + 1;
      }
      i := i + 1;
    }
    return None;
  }

  lemma FirstOfOrdered(direction: Direction, values: seq<int>, i: nat, v: int)
    requires i < |values| && Ordered(direction, values) && v in values[i..]
    ensures v == values[i] || Before(direction, values[i], v)
  {
  }

  lemma PartsInOrder(direction: Direction, dayNumber: int, h: int, m: int, hour: int, minute: int)
    requires 0 <= m <= 59 && 0 <= minute <= 59
    requires Before(direction, h, hour) || (h == hour && (m == minute || Before(direction, m, minute)))
    ensures NoLater(direction, TimeOf(dayNumber, h, m), TimeOf(dayNumber, hour, minute))
  {
  }

  function UtcCalendarDay(year: int, month: int, day: int): int
    requires 1 <= month <= 12
  {
    DayNumber(year, month, day)
  }

  /** A candidate on a date lies on the day that the search visits for it, and passes the search's test. */
  lemma OnSearchedDay(s: Schedule, from: int, direction: Direction, u: int, dayNumber: int)
    requires Candidate(s, from, direction, u)
    requires var d := DateOf(u); dayNumber == DayNumber(d.year, d.month, d.day)
    ensures DayOf(u) == dayNumber && Finite(dayNumber * MS_PER_DAY)
    ensures CivilDate(dayNumber) == DateOf(u) && Weekday(dayNumber) in s.daysOfWeek
  {
    FiniteDay(u);
    CivilRoundTrip(DayOf(u));
  }

  /** The body of the day loop: a date that does not exist or has the wrong weekday is skipped. */
  method FindOnDate(s: Schedule, from: int, direction: Direction, year: int, month: int, day: int,
                    hours: seq<int>, minutes: seq<int>) returns (r: Option<int>)
    requires InRange(s) && month in s.months && day in s.daysOfMonth
    requires ListsInOrder(direction, hours, s.hours) && ListsInOrder(direction, minutes, s.minutes)
    ensures r.None? ==> forall u :: Candidate(s, from, direction, u) ==> DateOf(u) != Date(year, month, day)
    ensures r.Some? ==> Candidate(s, from, direction, r.value) && DateOf(r.value) == Date(year, month, day)
    ensures r.Some? ==>
              forall u :: Candidate(s, from, direction, u) && DateOf(u) == Date(year, month, day) ==>
                NoLater(direction, r.value, u)
  {
    var dayNumber := UtcCalendarDay(year, month, day);
    r := None;
    if Finite(dayNumber * MS_PER_DAY)
       && CivilDate(dayNumber) == Date(year, month, day)
       && Weekday(dayNumber) in s.daysOfWeek
    {
      r := FindInDay(s, from, direction, dayNumber, hours, minutes);
    }
    forall u | Candidate(s, from, direction, u) && DateOf(u) == Date(year, month, day)
      ensures r.Some? && NoLater(direction, r.value, u)
    {
      OnSearchedDay(s, from, direction, u, dayNumber);
    }
  }

  /** The month and day loops: the nearest candidate in one year. */
  method FindInYear(s: Schedule, from: int, direction: Direction, year: int,
                    months: seq<int>, days: seq<int>, hours: seq<int>, minutes: seq<int>)
    returns (r: Option<int>)
    requires InRange(s)
    requires ListsInOrder(direction, months, s.months) && ListsInOrder(direction, days, s.daysOfMonth)
    requires ListsInOrder(direction, hours, s.hours) && ListsInOrder(direction, minutes, s.minutes)
    ensures r.None? ==> forall u :: Candidate(s, from, direction, u) ==> DateOf(u).year != year
    ensures r.Some? ==> Candidate(s, from, direction, r.value) && DateOf(r.value).year == year
    ensures r.Some? ==>
              forall u :: Candidate(s, from, direction, u) && DateOf(u).year == year ==> NoLater(direction, r.value, u)
  {
    var i := 0;
    while i < |months|
      invariant 0 <= i <= |months|
      invariant forall u :: Candidate(s, from, direction, u) && DateOf(u).year == year ==> DateOf(u).month in months[i..]
    {
      var j := 0;
      var month := months[i];
      while j < |days|
        invariant 0 <= j <= |days|
        invariant forall u :: Candidate(s, from, direction, u) && DateOf(u).year == year && DateOf(u).month == month ==>
                                DateOf(u).day in days[j..]
      {
        assert month in months && days[j] in days;
        r := FindOnDate(s, from, direction, year, month, days[j], hours, minutes);
        if r.Some? {
          forall u | Candidate(s, from, direction, u) && DateOf(u).year == year
            ensures NoLater(direction, r.value, u)
          {
            FirstDateOfOrdered(direction, months, i, days, j, DateOf(u), u, r.value);
          }
          return;
        }
        j := j + 1;
      }
      i := i + 1;
    }
    return None;
  }

  lemma FirstDateOfOrdered(direction: Direction, months: seq<int>, i: nat, days: seq<int>, j: nat, d: Date, u: int, t: int)
    requires i < |months| && Ordered(direction, months) && d.month in months[i..]
    requires j < |days| && Ordered(direction, days) && (d.month == months[i] ==> d.day in days[j..])
    requires d == DateOf(u) && DateOf(t) == Date(d.year, months[i], days[j])
    requires d == DateOf(t) ==> NoLater(direction, t, u)
    ensures NoLater(direction, t, u)
  {
    FirstOfOrdered(direction, months, i, d.month);
    if d.month == months[i] { FirstOfOrdered(direction, days, j, d.day); }
    if DateBefore(d, DateOf(t)) {
      DatesInTimeOrder(u, t);
    } else if DateBefore(DateOf(t), d) {
      DatesInTimeOrder(t, u);
    }
  }

  lemma YearsInTimeOrder(direction: Direction, t: int, u: int)
    requires Before(direction, DateOf(t).year, DateOf(u).year)
    ensures NoLater(direction, t, u)
  {
    if direction == 1 { DatesInTimeOrder(t, u); } else { DatesInTimeOrder(u, t); }
  }

  /** No candidate lies in the first `offset` years of the scan. */
  ghost predicate ScannedYears(s: Schedule, from: int, direction: Direction, offset: int) {
    forall u :: Candidate(s, from, direction, u) ==> Ahead(direction, DateOf(from).year, DateOf(u).year) >= offset
  }

  lemma ScanStarts(s: Schedule, from: int, direction: Direction)
    ensures ScannedYears(s, from, direction, 0)
  {
    forall u | Candidate(s, from, direction, u)
      ensures Ahead(direction, DateOf(from).year, DateOf(u).year) >= 0
    {
      if direction == 1 { YearsAreMonotone(from, u); } else { YearsAreMonotone(u, from); }
    }
  }

  lemma YearAhead(direction: Direction, startYear: int, offset: int)
    ensures Ahead(direction, startYear, startYear + direction * offset) == offset
  {
  }

  lemma ScanAdvances(s: Schedule, from: int, direction: Direction, offset: int, year: int)
    requires ScannedYears(s, from, direction, offset) && Ahead(direction, DateOf(from).year, year) == offset
    requires forall u :: Candidate(s, from, direction, u) ==> DateOf(u).year != year
    ensures ScannedYears(s, from, direction, offset + 1)
  {
  }

  lemma FoundInYear(s: Schedule, from: int, direction: Direction, offset: int, t: int)
    requires ScannedYears(s, from, direction, offset)
    requires Candidate(s, from, direction, t) && Ahead(direction, DateOf(from).year, DateOf(t).year) == offset
    requires forall u :: Candidate(s, from, direction, u) && DateOf(u).year == DateOf(t).year ==> NoLater(direction, t, u)
    ensures Nearest(FireTimes(s), from, direction, t)
  {
    forall u | u in FireTimes(s) && Accepts(direction, from, u)
      ensures NoLater(direction, t, u)
    {
      assert Candidate(s, from, direction, u);
      if DateOf(u).year != DateOf(t).year { YearsInTimeOrder(direction, t, u); }
    }
  }

  lemma NothingBeyondTheCycle(s: Schedule, from: int, direction: Direction)
    requires Finite(from) && ScannedYears(s, from, direction, YEARS_PER_CYCLE + 1)
    ensures NoneFrom(FireTimes(s), from, direction)
  {
    forall u | u in FireTimes(s)
      ensures !Accepts(direction, from, u)
    {
      if Candidate(s, from, direction, u) { var _ := CandidateWithinCycle(s, from, direction, u); }
    }
  }

  const NOT_FINITE: string := "Cron reference time must be finite"

  /** The whole search. It succeeds with the nearest fire time, and fails only when there is none at any
      representable time: looking 400 years ahead, endpoint included, is enough. */
  method FindCalendarFireTime(s: Schedule, from: int, direction: Direction) returns (r: Result<int>)
    requires InRange(s)
    ensures !Finite(from) ==> r == Err(NOT_FINITE)
    ensures Finite(from) ==> IsAnswer(FireTimes(s), from, direction, r)
  {
    if !Finite(from) {
      return Err(NOT_FINITE);
    }
    var startYear := DateOf(from).year;
    var months := SortedCronValues(s.months, direction);
    var days := SortedCronValues(s.daysOfMonth, direction);
    var hours := SortedCronValues(s.hours, direction);
    var minutes := SortedCronValues(s.minutes, direction);
    ScanStarts(s, from, direction);
    var yearOffset := 0;
    while yearOffset <= YEARS_PER_CYCLE
      invariant 0 <= yearOffset <= YEARS_PER_CYCLE + 1
      invariant ScannedYears(s, from, direction, yearOffset)
    {
      var year := startYear + direction * yearOffset;
      YearAhead(direction, startYear, yearOffset);
      var found := FindInYear(s, from, direction, year, months, days, hours, minutes);
      if found.Some? {
        FoundInYear(s, from, direction, yearOffset, found.value);
        return Ok(found.value);
      }
      ScanAdvances(s, from, direction, yearOffset, year);
      yearOffset := yearOffset + 1;
    }
    NothingBeyondTheCycle(s, from, direction);
    return Err("Could not find fire time within one 400-year Gregorian calendar cycle");
  }

  /** The first matching minute strictly after `from`. */
  method GetNextFireTime(s: Schedule, from: int) returns (r: Result<int>)
    requires InRange(s)
    ensures if Finite(from) then IsAnswer(FireTimes(s), from, 1, r) else r == Err(NOT_FINITE)
    ensures r.Ok? ==> r.value in FireTimes(s) && r.value > from
    ensures r.Ok? ==> forall u :: u in FireTimes(s) && u > from ==> r.value <= u
    ensures r.Err? && Finite(from) ==> forall u :: u in FireTimes(s) ==> u <= from
  {
    r := FindCalendarFireTime(s, from, 1);
  }

  /** The last matching minute at or before `from`. */
  method GetPreviousFireTime(s: Schedule, from: int) returns (r: Result<int>)
    requires InRange(s)
    ensures if Finite(from) then IsAnswer(FireTimes(s), from, -1, r) else r == Err(NOT_FINITE)
    ensures r.Ok? ==> r.value in FireTimes(s) && r.value <= from
    ensures r.Ok? ==> forall u :: u in FireTimes(s) && u <= from ==> u <= r.value
    ensures r.Err? && Finite(from) ==> forall u :: u in FireTimes(s) ==> u > from
  {
    r := FindCalendarFireTime(s, from, -1);
  }
}
