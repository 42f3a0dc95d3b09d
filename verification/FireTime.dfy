/** What a cron schedule means: which instants it fires at, and the first one in a direction.
    Times are milliseconds since the epoch; an integer outside `Finite` stands for an invalid Date. */
module FireTime {
  import opened Common
  import opened Calendar

  datatype Schedule = Schedule(
    minutes: set<int>, hours: set<int>, daysOfMonth: set<int>, months: set<int>, daysOfWeek: set<int>)

  /** The value ranges of a CronSchedule; emptiness is allowed. */
  predicate InRange(s: Schedule) {
    && (forall v :: v in s.minutes ==> 0 <= v <= 59)
    && (forall v :: v in s.hours ==> 0 <= v <= 23)
    && (forall v :: v in s.daysOfMonth ==> 1 <= v <= 31)
    && (forall v :: v in s.months ==> 1 <= v <= 12)
    && (forall v :: v in s.daysOfWeek ==> 0 <= v <= 6)
  }

  type Direction = d: int | d == 1 || d == -1 witness 1

  function DayOf(t: int): int { t / MS_PER_DAY }
  function HourOf(t: int): int { t % MS_PER_DAY / MS_PER_HOUR }
  function MinuteOf(t: int): int { t % MS_PER_HOUR / MS_PER_MINUTE }
  function DateOf(t: int): Date { CivilDate(DayOf(t)) }

  function TimeOf(dayNumber: int, hour: int, minute: int): int {
    dayNumber * MS_PER_DAY + hour * MS_PER_HOUR + minute * MS_PER_MINUTE
  }

  predicate MatchesDay(s: Schedule, dayNumber: int) {
    var d := CivilDate(dayNumber);
    d.day in s.daysOfMonth && d.month in s.months && Weekday(dayNumber) in s.daysOfWeek
  }

  /** Both day fields must match: day of month and weekday are a conjunction. */
  predicate MatchesCron(t: int, s: Schedule) {
    MinuteOf(t) in s.minutes && HourOf(t) in s.hours && MatchesDay(s, DayOf(t))
  }

  predicate IsFireTime(s: Schedule, t: int) {
    t % MS_PER_MINUTE == 0 && MatchesCron(t, s)
  }

  predicate Accepts(direction: Direction, from: int, t: int) {
    if direction == 1 then t > from else t <= from
  }

  predicate NoLater(direction: Direction, a: int, b: int) {
    if direction == 1 then a <= b else b <= a
  }

  /** How far `b` lies beyond `a` in the direction. */
  function Ahead(direction: Direction, a: int, b: int): int {
    if direction == 1 then b - a else a - b
  }

  predicate Candidate(s: Schedule, from: int, direction: Direction, t: int) {
    Finite(t) && IsFireTime(s, t) && Accepts(direction, from, t)
  }

  /** The representable instants at which the schedule fires. */
  ghost function FireTimes(s: Schedule): iset<int> {
    iset t | Finite(t) && IsFireTime(s, t)
  }

  /** `t` is the member of `fires` nearest to `from` in the direction; forwards, `from` itself is excluded. */
  ghost predicate Nearest(fires: iset<int>, from: int, direction: Direction, t: int) {
    t in fires && Accepts(direction, from, t) &&
    forall u :: u in fires && Accepts(direction, from, u) ==> NoLater(direction, t, u)
  }

  ghost predicate NoneFrom(fires: iset<int>, from: int, direction: Direction) {
    forall u :: u in fires ==> !Accepts(direction, from, u)
  }

  /** What the search may answer: the nearest fire time, or an error when there is none. */
  ghost predicate IsAnswer(fires: iset<int>, from: int, direction: Direction, r: Result<int>) {
    if r.Ok? then Nearest(fires, from, direction, r.value) else NoneFrom(fires, from, direction)
  }

  lemma TimeParts(t: int)
    requires t % MS_PER_MINUTE == 0
    ensures t == TimeOf(DayOf(t), HourOf(t), MinuteOf(t))
    ensures 0 <= HourOf(t) <= 23 && 0 <= MinuteOf(t) <= 59
  {
    var r := t % MS_PER_DAY;
    assert t == DayOf(t) * MS_PER_DAY + r;
    var h := r / MS_PER_HOUR;
    var q := r % MS_PER_HOUR;
    assert t == MS_PER_HOUR * (24 * DayOf(t) + h) + q;
    assert t % MS_PER_HOUR == q;
    assert q % MS_PER_MINUTE == 0;
  }

  lemma PartsOfTime(dayNumber: int, hour: int, minute: int)
    requires 0 <= hour <= 23 && 0 <= minute <= 59
    ensures var t := TimeOf(dayNumber, hour, minute);
            DayOf(t) == dayNumber && HourOf(t) == hour && MinuteOf(t) == minute && t % MS_PER_MINUTE == 0
  {
    var t := TimeOf(dayNumber, hour, minute);
    DivideBy(t, MS_PER_DAY, dayNumber, hour * MS_PER_HOUR + minute * MS_PER_MINUTE);
    DivideBy(t, MS_PER_HOUR, 24 * dayNumber + hour, minute * MS_PER_MINUTE);
    DivideBy(t, MS_PER_MINUTE, 1440 * dayNumber + 60 * hour + minute, 0);
    DivideBy(hour * MS_PER_HOUR + minute * MS_PER_MINUTE, MS_PER_HOUR, hour, minute * MS_PER_MINUTE);
    DivideBy(minute * MS_PER_MINUTE, MS_PER_MINUTE, minute, 0);
  }

  lemma DaysInTimeOrder(a: int, b: int)
    requires DayOf(a) < DayOf(b)
    ensures a < b
  {
  }

  lemma DatesInTimeOrder(a: int, b: int)
    requires DateBefore(DateOf(a), DateOf(b))
    ensures a < b
  {
    CivilRoundTrip(DayOf(a));
    CivilRoundTrip(DayOf(b));
    DatesInOrder(DateOf(a), DateOf(b));
    DaysInTimeOrder(a, b);
  }

  /** The representable range ends on day boundaries. */
  lemma FiniteDay(t: int)
    requires Finite(t)
    ensures Finite(DayOf(t) * MS_PER_DAY)
  {
    assert t == DayOf(t) * MS_PER_DAY + t % MS_PER_DAY;
    if DayOf(t) < -100_000_000 { assert false; }
  }

  /** The answer is unique: the search computes a function of the schedule and the reference time. */
  lemma AnswersAgree(fires: iset<int>, from: int, direction: Direction, a: Result<int>, b: Result<int>)
    requires IsAnswer(fires, from, direction, a) && IsAnswer(fires, from, direction, b)
    ensures a.Ok? == b.Ok? && (a.Ok? ==> a.value == b.value)
  {
  }

  /** `t` is the minute h:m of an existing date that every field of the schedule lists, in milliseconds. */
  ghost predicate FiresOn(s: Schedule, t: int, d: Date, hour: int, minute: int) {
    && ValidDate(d) && 0 <= hour <= 23 && 0 <= minute <= 59
    && t == 86_400_000 * DayNumber(d.year, d.month, d.day) + 3_600_000 * hour + 60_000 * minute
    && minute in s.minutes && hour in s.hours && d.day in s.daysOfMonth && d.month in s.months
    && ZellerWeekday(d) in s.daysOfWeek
  }

  lemma FireTimeIsDate(s: Schedule, t: int)
    requires IsFireTime(s, t)
    ensures FiresOn(s, t, DateOf(t), HourOf(t), MinuteOf(t))
  {
    TimeParts(t);
    CivilRoundTrip(DayOf(t));
    WeekdayOfDate(DateOf(t));
  }

  lemma DateIsFireTime(s: Schedule, t: int, d: Date, hour: int, minute: int)
    requires FiresOn(s, t, d, hour, minute)
    ensures IsFireTime(s, t)
  {
    PartsOfTime(DayNumber(d.year, d.month, d.day), hour, minute);
    DayNumberRoundTrip(d);
    WeekdayOfDate(d);
  }

  /** The fire times in terms of the civil date alone: the listed minutes of existing listed dates with a listed
      weekday, no more than 100 million days from the epoch. */
  lemma FireTimesByDate(s: Schedule, t: int)
    ensures t in FireTimes(s) <==>
            -8_640_000_000_000_000 <= t <= 8_640_000_000_000_000 &&
            exists d, hour, minute :: FiresOn(s, t, d, hour, minute)
  {
    if t in FireTimes(s) { FireTimeIsDate(s, t); }
    if d, hour, minute :| FiresOn(s, t, d, hour, minute) { DateIsFireTime(s, t, d, hour, minute); }
  }
}
